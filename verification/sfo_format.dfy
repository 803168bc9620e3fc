/**
  The SFO/PSF parameter-file layout and the decoding steps shared by the
  library (`sforeader/sforeader.go`) and the command-line tool (`main.go`):
  the record types, bounds-checked reads from the in-memory file, the header
  and index-table readers, the zero-terminated key scan, the two value
  policies, and the fold that builds the key-to-entry map.

  The file is an immutable byte sequence. A read of `n` bytes at position
  `pos` succeeds iff `n == 0 || pos + n <= |buf|`: seeking past the end never
  fails in Go, only the read that follows it does, and a zero-length read
  always succeeds.

  Layout:
    offset 0                      header, 20 bytes
    offset 20 + 16 * i            index record i
    header.keyTableOffset + ...   zero-terminated keys
    header.dataTableOffset + ...  value slots
 */
module SfoFormat {
  import opened LittleEndian
  import ByteSlices

  const HeaderSize: nat := 20
  const IndexRecordSize: nat := 16

  /** Format tags; the decoder copies them through without interpreting them. */
  const FormatUtf8SM: u16 := 4
  const FormatUtf8: u16 := 516
  const FormatInteger: u16 := 1028

  /** `\0PSF` and `1,1,0,0`: the bytes the magic and version fields must hold. */
  const MagicBytes: seq<byte> := [0, 0x50, 0x53, 0x46]
  const VersionBytes: seq<byte> := [1, 1, 0, 0]

  /**
    What can go wrong. Every short read is `Truncated`; the other variants are
    the five header checks. Go's error values are modelled by these tags, not
    by their message strings.
   */
  datatype Error =
    | Truncated
    | InvalidMagic
    | InvalidVersion
    | InvalidKeyOffset
    | InvalidDataOffset
    | InvalidEntryCount

  datatype Result<+T> = Ok(value: T) | Err(error: Error) {
    predicate IsFailure() {
      Err?
    }

    function PropagateFailure<U>(): Result<U>
      requires Err?
    {
      Err(error)
    }

    function Extract(): T
      requires Ok?
    {
      value
    }
  }

  /** A check that yields no value: Go's `error` return, nil or not. */
  datatype Outcome = Pass | Fail(error: Error) {
    predicate IsFailure() {
      Fail?
    }

    function PropagateFailure<U>(): Result<U>
      requires Fail?
    {
      Err(error)
    }
  }

  /** The 20-byte file header; `magic` and `version` are signed in Go. */
  datatype Header = Header(
    magic: i32,
    version: i32,
    keyTableOffset: u32,
    dataTableOffset: u32,
    indexTableEntries: u32)

  /** One 16-byte index record, locating one key and one value slot. */
  datatype IndexRecord = IndexRecord(
    keyTableOffset: u16,
    paramFormat: u16,
    paramLength: u32,
    paramMaxLength: u32,
    dataTableOffset: u32)

  /** A decoded entry: the value bytes and the format tag of its record. */
  datatype Data = Data(data: seq<byte>, format: u16)

  /** A key as the raw bytes before its zero terminator. */
  type Key = seq<byte>

  // ---------------------------------------------------------------------
  // Reads

  /** `binary.Read` of `n` bytes after seeking to `pos`. */
  function ReadAt(buf: seq<byte>, pos: nat, n: nat): (r: Result<seq<byte>>)
    ensures r.Ok? <==> n == 0 || pos + n <= |buf|
    ensures r.Ok? ==> |r.value| == n && forall i :: 0 <= i < n ==> r.value[i] == buf[pos + i]
    ensures r.Err? ==> r.error == Truncated
  {
    if n == 0 then Ok([])
    else if pos + n <= |buf| then Ok(buf[pos..pos + n])
    else Err(Truncated)
  }

  // ---------------------------------------------------------------------
  // Header

  /** The header as `binary.Read` fills it from 20 bytes. */
  function DecodeHeader(b: seq<byte>): Header
    requires |b| == HeaderSize
  {
    Header(
      Int32(Uint32(b[0..4])),
      Int32(Uint32(b[4..8])),
      Uint32(b[8..12]),
      Uint32(b[12..16]),
      Uint32(b[16..20]))
  }

  /** The bytes a header occupies on disk; the inverse of `DecodeHeader`. */
  function EncodeHeader(h: Header): (b: seq<byte>)
    ensures |b| == HeaderSize
  {
    PutUint32(Uint32Of(h.magic)) + PutUint32(Uint32Of(h.version))
    + PutUint32(h.keyTableOffset) + PutUint32(h.dataTableOffset)
    + PutUint32(h.indexTableEntries)
  }

  /** Reads the header at offset 0. */
  function ReadHeader(buf: seq<byte>): (r: Result<Header>)
    ensures r.Ok? <==> |buf| >= HeaderSize
    ensures r.Err? ==> r.error == Truncated
  {
    var b :- ReadAt(buf, 0, HeaderSize);
    assert b == buf[..HeaderSize];
    Ok(DecodeHeader(b))
  }

  /** Encoding a header and reading it back from any file that starts with it gives it back. */
  lemma ReadHeaderRoundTrip(h: Header, rest: seq<byte>)
    ensures ReadHeader(EncodeHeader(h) + rest) == Ok(h)
  {
    var e := EncodeHeader(h);
    var buf := e + rest;
    assert buf[..HeaderSize] == e;
    assert e[0..4] == PutUint32(Uint32Of(h.magic));
    assert e[4..8] == PutUint32(Uint32Of(h.version));
    assert e[8..12] == PutUint32(h.keyTableOffset);
    assert e[12..16] == PutUint32(h.dataTableOffset);
    assert e[16..20] == PutUint32(h.indexTableEntries);
  }

  /** Decoding a header and encoding it again gives back the same 20 bytes. */
  lemma EncodeHeaderOfDecode(b: seq<byte>)
    requires |b| == HeaderSize
    ensures EncodeHeader(DecodeHeader(b)) == b
  {
    PutUint32OfUint32(b[0..4]);
    PutUint32OfUint32(b[4..8]);
    PutUint32OfUint32(b[8..12]);
    PutUint32OfUint32(b[12..16]);
    PutUint32OfUint32(b[16..20]);
    assert b == b[0..4] + b[4..8] + b[8..12] + b[12..16] + b[16..20];
  }

  /**
    The five header checks stated on the raw bytes of the file, first failure
    first: magic, version, the high two bytes of the key-table offset, the
    high two bytes of the data-table offset, the high three bytes of the
    entry count. A file shorter than a header fails before any check.
   */
  ghost function HeaderVerdict(buf: seq<byte>): Outcome
  {
    if |buf| < HeaderSize then Fail(Truncated)
    else if buf[0..4] != MagicBytes then Fail(InvalidMagic)
    else if buf[4..8] != VersionBytes then Fail(InvalidVersion)
    else if buf[10..12] != [0, 0] then Fail(InvalidKeyOffset)
    else if buf[14..16] != [0, 0] then Fail(InvalidDataOffset)
    else if buf[17..20] != [0, 0, 0] then Fail(InvalidEntryCount)
    else Pass
  }

  /**
    The five header checks stated on the decoded numbers, first failure
    first: the magic and version constants, then the key-table and
    data-table offsets below 2^16 and the entry count below 2^8.
   */
  ghost function HeaderViolation(h: Header): Outcome
  {
    if h.magic != 1179865088 then Fail(InvalidMagic)
    else if h.version != 257 then Fail(InvalidVersion)
    else if h.keyTableOffset >= 0x1_0000 then Fail(InvalidKeyOffset)
    else if h.dataTableOffset >= 0x1_0000 then Fail(InvalidDataOffset)
    else if h.indexTableEntries >= 0x100 then Fail(InvalidEntryCount)
    else Pass
  }

  /** A signed field read from four bytes equals a non-negative constant iff the bytes encode it. */
  lemma SignedFieldIs(b: seq<byte>, c: seq<byte>)
    requires |b| == 4 && |c| == 4
    requires Uint32(c) < 0x8000_0000
    ensures Int32(Uint32(b)) == Uint32(c) <==> b == c
  {
    Uint32Injective(b, c);
  }

  /**
    On the raw bytes of a file at least a header long, the byte-level checks
    and the numeric checks on the decoded header give the same verdict; a
    header that passes holds its entry count in byte 16 alone.
   */
  lemma HeaderVerdictMatches(buf: seq<byte>)
    requires |buf| >= HeaderSize
    ensures HeaderVerdict(buf) == HeaderViolation(DecodeHeader(buf[..HeaderSize]))
    ensures HeaderVerdict(buf) == Pass ==> DecodeHeader(buf[..HeaderSize]).indexTableEntries == buf[16]
  {
    var b := buf[..HeaderSize];
    var h := DecodeHeader(b);
    assert b[0..4] == buf[0..4] && b[4..8] == buf[4..8];
    SignedFieldIs(b[0..4], MagicBytes);
    SignedFieldIs(b[4..8], VersionBytes);
    PutUint32OfUint32(b[8..12]);
    HighTwoBytesZero(h.keyTableOffset);
    assert b[8..12][2..4] == buf[10..12] by {
      assert forall j :: 0 <= j < 2 ==> b[8..12][2..4][j] == buf[10 + j];
    }
    PutUint32OfUint32(b[12..16]);
    HighTwoBytesZero(h.dataTableOffset);
    assert b[12..16][2..4] == buf[14..16] by {
      assert forall j :: 0 <= j < 2 ==> b[12..16][2..4][j] == buf[14 + j];
    }
    PutUint32OfUint32(b[16..20]);
    HighThreeBytesZero(h.indexTableEntries);
    assert b[16..20][1..4] == buf[17..20] by {
      assert forall j :: 0 <= j < 3 ==> b[16..20][1..4][j] == buf[17 + j];
    }
  }

  // ---------------------------------------------------------------------
  // Index table

  /** An index record as `binary.Read` fills it from 16 bytes. */
  function DecodeIndexRecord(b: seq<byte>): IndexRecord
    requires |b| == IndexRecordSize
  {
    IndexRecord(
      Uint16(b[0..2]),
      Uint16(b[2..4]),
      Uint32(b[4..8]),
      Uint32(b[8..12]),
      Uint32(b[12..16]))
  }

  /** The bytes an index record occupies on disk. */
  function EncodeIndexRecord(rec: IndexRecord): (b: seq<byte>)
    ensures |b| == IndexRecordSize
  {
    PutUint16(rec.keyTableOffset) + PutUint16(rec.paramFormat)
    + PutUint32(rec.paramLength) + PutUint32(rec.paramMaxLength)
    + PutUint32(rec.dataTableOffset)
  }

  lemma IndexRecordRoundTrip(rec: IndexRecord)
    ensures DecodeIndexRecord(EncodeIndexRecord(rec)) == rec
  {
    var e := EncodeIndexRecord(rec);
    assert e[0..2] == PutUint16(rec.keyTableOffset);
    assert e[2..4] == PutUint16(rec.paramFormat);
    assert e[4..8] == PutUint32(rec.paramLength);
    assert e[8..12] == PutUint32(rec.paramMaxLength);
    assert e[12..16] == PutUint32(rec.dataTableOffset);
  }

  /** Decoding 16 bytes as an index record and encoding it again gives back the same bytes. */
  lemma EncodeIndexRecordOfDecode(b: seq<byte>)
    requires |b| == IndexRecordSize
    ensures EncodeIndexRecord(DecodeIndexRecord(b)) == b
  {
    PutUint16OfUint16(b[0..2]);
    PutUint16OfUint16(b[2..4]);
    PutUint32OfUint32(b[4..8]);
    PutUint32OfUint32(b[8..12]);
    PutUint32OfUint32(b[12..16]);
    assert b == b[0..2] + b[2..4] + b[4..8] + b[8..12] + b[12..16];
  }

  /** File offset of index record `i`; `RecordOffset(n)` is where the table of `n` records ends. */
  function RecordOffset(i: nat): nat
  {
    HeaderSize + IndexRecordSize * i
  }

  /** Index record `i` as it lies in the file. */
  ghost function RecordAt(buf: seq<byte>, i: nat): IndexRecord
    requires RecordOffset(i + 1) <= |buf|
  {
    DecodeIndexRecord(buf[RecordOffset(i)..RecordOffset(i + 1)])
  }

  /**
    Reads `count` index records, one after the other, straight after the
    header; the first short read fails the whole table.
   */
  function ReadIndexTable(buf: seq<byte>, count: nat): (r: Result<seq<IndexRecord>>)
    ensures r.Ok? <==> count == 0 || RecordOffset(count) <= |buf|
    ensures r.Err? ==> r.error == Truncated
    ensures r.Ok? ==> |r.value| == count
    ensures r.Ok? ==> forall i :: 0 <= i < count ==> r.value[i] == RecordAt(buf, i)
  {
    if count == 0 then Ok([])
    else
      var init :- ReadIndexTable(buf, count - 1);
      var b :- ReadAt(buf, RecordOffset(count - 1), IndexRecordSize);
      assert b == buf[RecordOffset(count - 1)..RecordOffset(count)];
      Ok(init + [DecodeIndexRecord(b)])
  }

  function EncodeIndexTable(recs: seq<IndexRecord>): (b: seq<byte>)
    ensures |b| == IndexRecordSize * |recs|
  {
    if recs == [] then [] else EncodeIndexTable(recs[..|recs| - 1]) + EncodeIndexRecord(recs[|recs| - 1])
  }

  lemma {:induction false} EncodeIndexTableAt(recs: seq<IndexRecord>, i: nat)
    requires i < |recs|
    ensures EncodeIndexTable(recs)[IndexRecordSize * i..IndexRecordSize * (i + 1)] == EncodeIndexRecord(recs[i])
  {
    var init := recs[..|recs| - 1];
    if i < |recs| - 1 {
      EncodeIndexTableAt(init, i);
      assert EncodeIndexTable(recs)[..IndexRecordSize * |init|] == EncodeIndexTable(init);
    }
  }

  /**
    Index records written after any 20-byte header are read back, in order,
    whatever follows them.
   */
  lemma ReadIndexTableRoundTrip(hb: seq<byte>, recs: seq<IndexRecord>, rest: seq<byte>)
    requires |hb| == HeaderSize
    ensures ReadIndexTable(hb + EncodeIndexTable(recs) + rest, |recs|) == Ok(recs)
  {
    var buf := hb + EncodeIndexTable(recs) + rest;
    var r := ReadIndexTable(buf, |recs|);
    assert r.Ok?;
    forall i | 0 <= i < |recs|
      ensures r.value[i] == recs[i]
    {
      EncodeIndexTableAt(recs, i);
      assert buf[RecordOffset(i)..RecordOffset(i + 1)]
          == EncodeIndexTable(recs)[IndexRecordSize * i..IndexRecordSize * (i + 1)];
      IndexRecordRoundTrip(recs[i]);
    }
    assert r.value == recs;
  }

  // ---------------------------------------------------------------------
  // Keys

  /**
    `key` lies at `pos`, is followed by a zero byte, and holds no zero byte
    itself: it is the text of a zero-terminated key.
   */
  ghost predicate TerminatedKeyAt(buf: seq<byte>, pos: nat, key: Key)
  {
    && pos + |key| < |buf|
    && buf[pos..pos + |key|] == key
    && buf[pos + |key|] == 0
    && forall j :: 0 <= j < |key| ==> key[j] != 0
  }

  /**
    Reads one byte at a time from `pos` up to, not including, the first zero
    byte; reaching the end of the file first is a short read.
   */
  function ScanKey(buf: seq<byte>, pos: nat): (r: Result<Key>)
    decreases |buf| - pos
    ensures r.Ok? <==> exists i :: pos <= i < |buf| && buf[i] == 0
    ensures r.Ok? ==> TerminatedKeyAt(buf, pos, r.value)
    ensures r.Err? ==> r.error == Truncated
  {
    if pos >= |buf| then Err(Truncated)
    else if buf[pos] == 0 then Ok([])
    else
      var rest :- ScanKey(buf, pos + 1);
      Ok([buf[pos]] + rest)
  }

  /** Only one key can start at a given position. */
  lemma TerminatedKeyUnique(buf: seq<byte>, pos: nat, k1: Key, k2: Key)
    requires TerminatedKeyAt(buf, pos, k1) && TerminatedKeyAt(buf, pos, k2)
    ensures k1 == k2
  {
  }

  // ---------------------------------------------------------------------
  // Values

  /**
    How a value is taken from its slot: the library reads exactly
    `paramLength` bytes; the command-line tool reads `paramMaxLength` bytes
    and then strips zero bytes from both ends.
   */
  datatype ValuePolicy = DeclaredLength | TrimmedMaxLength

  /** Absolute file offset of a record's key. */
  function KeyStart(hdr: Header, rec: IndexRecord): nat
  {
    hdr.keyTableOffset + rec.keyTableOffset
  }

  /** Absolute file offset of a record's value slot. */
  function SlotStart(hdr: Header, rec: IndexRecord): nat
  {
    hdr.dataTableOffset + rec.dataTableOffset
  }

  function ReadValue(buf: seq<byte>, hdr: Header, rec: IndexRecord, policy: ValuePolicy): (r: Result<seq<byte>>)
    ensures r.Err? ==> r.error == Truncated
    ensures policy == DeclaredLength ==>
      && (r.Ok? <==> rec.paramLength == 0 || SlotStart(hdr, rec) + rec.paramLength <= |buf|)
      && (r.Ok? ==> |r.value| == rec.paramLength
                    && forall i :: 0 <= i < rec.paramLength ==> r.value[i] == buf[SlotStart(hdr, rec) + i])
    ensures policy == TrimmedMaxLength ==>
      && (r.Ok? <==> rec.paramMaxLength == 0 || SlotStart(hdr, rec) + rec.paramMaxLength <= |buf|)
      && (r.Ok? ==> ByteSlices.IsZeroTrimOf(r.value, ReadAt(buf, SlotStart(hdr, rec), rec.paramMaxLength).value))
      && (r.Ok? ==> |r.value| <= rec.paramMaxLength)
  {
    match policy
    case DeclaredLength =>
      ReadAt(buf, SlotStart(hdr, rec), rec.paramLength)
    case TrimmedMaxLength =>
      var slot :- ReadAt(buf, SlotStart(hdr, rec), rec.paramMaxLength);
      Ok(ByteSlices.TrimZeros(slot))
  }

  // ---------------------------------------------------------------------
  // Extraction

  /** How many bytes of a record's slot a policy reads. */
  function SlotLength(rec: IndexRecord, policy: ValuePolicy): nat
  {
    match policy
    case DeclaredLength => rec.paramLength
    case TrimmedMaxLength => rec.paramMaxLength
  }

  /**
    A record can be decoded from the file: a zero byte lies at or after its
    key offset, and the bytes its policy reads from the slot lie inside the
    file.
   */
  ghost predicate EntryReadable(buf: seq<byte>, hdr: Header, rec: IndexRecord, policy: ValuePolicy)
  {
    && (exists p :: KeyStart(hdr, rec) <= p < |buf| && buf[p] == 0)
    && (SlotLength(rec, policy) == 0 || SlotStart(hdr, rec) + SlotLength(rec, policy) <= |buf|)
  }

  /** One record's key, then its value; the format tag is copied unchanged. */
  function DecodeEntry(buf: seq<byte>, hdr: Header, rec: IndexRecord, policy: ValuePolicy): (r: Result<(Key, Data)>)
    ensures r.Ok? <==> EntryReadable(buf, hdr, rec, policy)
    ensures r.Ok? ==> TerminatedKeyAt(buf, KeyStart(hdr, rec), r.value.0) && r.value.1.format == rec.paramFormat
    ensures r.Err? ==> r.error == Truncated
  {
    var key :- ScanKey(buf, KeyStart(hdr, rec));
    var value :- ReadValue(buf, hdr, rec, policy);
    Ok((key, Data(value, rec.paramFormat)))
  }

  /** Decodes every record in index order; any failure fails them all. */
  function ExtractEntries(buf: seq<byte>, hdr: Header, recs: seq<IndexRecord>, policy: ValuePolicy)
    : (r: Result<seq<(Key, Data)>>)
    ensures r.Ok? <==> forall i :: 0 <= i < |recs| ==> DecodeEntry(buf, hdr, recs[i], policy).Ok?
    ensures r.Err? ==> r.error == Truncated
    ensures r.Ok? ==> |r.value| == |recs|
    ensures r.Ok? ==> forall i :: 0 <= i < |recs| ==> r.value[i] == DecodeEntry(buf, hdr, recs[i], policy).value
  {
    if recs == [] then Ok([])
    else
      var e :- DecodeEntry(buf, hdr, recs[0], policy);
      var rest :- ExtractEntries(buf, hdr, recs[1..], policy);
      assert forall i :: 1 <= i < |recs| ==> recs[i] == recs[1..][i - 1];
      Ok([e] + rest)
  }

  /** No entry after position `i` has the key of entry `i`. */
  ghost predicate LastWithKey<V>(entries: seq<(Key, V)>, i: nat)
    requires i < |entries|
  {
    forall j :: i < j < |entries| ==> entries[j].0 != entries[i].0
  }

  /**
    Inserts the entries into an empty map in order, as the Go loop does; a
    later entry with the same key overwrites an earlier one.
   */
  function BuildMap<V>(entries: seq<(Key, V)>): (m: map<Key, V>)
    ensures m.Keys == KeysOf(entries)
    ensures |m| <= |entries|
    ensures forall i :: 0 <= i < |entries| && LastWithKey(entries, i) ==> m[entries[i].0] == entries[i].1
  {
    if entries == [] then map[]
    else
      var init := entries[..|entries| - 1];
      var last := entries[|entries| - 1];
      var m0 := BuildMap(init);
      BuildMapStepKeys(entries, m0);
      BuildMapStepLast(entries, m0);
      m0[last.0 := last.1]
  }

  /** The keys of a sequence of entries. */
  ghost function KeysOf<V>(entries: seq<(Key, V)>): set<Key>
  {
    set i | 0 <= i < |entries| :: entries[i].0
  }

  /** One insertion at the end of the fold keeps the key set and the size bound of `BuildMap`. */
  lemma BuildMapStepKeys<V>(entries: seq<(Key, V)>, m0: map<Key, V>)
    requires |entries| > 0
    requires m0.Keys == KeysOf(entries[..|entries| - 1])
    requires |m0| <= |entries| - 1
    ensures var last := entries[|entries| - 1];
      var m := m0[last.0 := last.1];
      m.Keys == KeysOf(entries) && |m| <= |entries|
  {
    var last := entries[|entries| - 1];
    KeysOfSnoc(entries);
    assert m0[last.0 := last.1].Keys == m0.Keys + {last.0};
  }

  /** One insertion at the end of the fold keeps the last-entry-wins property of `BuildMap`. */
  lemma BuildMapStepLast<V>(entries: seq<(Key, V)>, m0: map<Key, V>)
    requires |entries| > 0
    requires forall i :: 0 <= i < |entries| - 1 && LastWithKey(entries[..|entries| - 1], i)
               ==> entries[i].0 in m0 && m0[entries[i].0] == entries[i].1
    ensures var last := entries[|entries| - 1];
      var m := m0[last.0 := last.1];
      forall i :: 0 <= i < |entries| && LastWithKey(entries, i) ==> entries[i].0 in m && m[entries[i].0] == entries[i].1
  {
    var init := entries[..|entries| - 1];
    var last := entries[|entries| - 1];
    var m := m0[last.0 := last.1];
    forall i | 0 <= i < |entries| && LastWithKey(entries, i)
      ensures entries[i].0 in m && m[entries[i].0] == entries[i].1
    {
      if i < |entries| - 1 {
        LastWithKeyOfInit(entries, i);
      }
    }
  }

  lemma KeysOfSnoc<V>(entries: seq<(Key, V)>)
    requires |entries| > 0
    ensures KeysOf(entries) == KeysOf(entries[..|entries| - 1]) + {entries[|entries| - 1].0}
  {
    var init := entries[..|entries| - 1];
    assert forall i :: 0 <= i < |init| ==> init[i] == entries[i];
  }

  /** An entry before the last that is last with its key is also last among the earlier entries. */
  lemma LastWithKeyOfInit<V>(entries: seq<(Key, V)>, i: nat)
    requires i < |entries| - 1 && LastWithKey(entries, i)
    ensures entries[i].0 != entries[|entries| - 1].0
    ensures LastWithKey(entries[..|entries| - 1], i)
  {
  }

  /**
    Everything after a valid header: read the index table, decode each
    record in order, build the map. The header check itself differs between
    the library and the command-line tool and is done by their callers.
   */
  function DecodeTables(buf: seq<byte>, hdr: Header, policy: ValuePolicy): (r: Result<map<Key, Data>>)
    ensures r.Err? ==> r.error == Truncated
    ensures r.Ok? ==> hdr.indexTableEntries == 0 || RecordOffset(hdr.indexTableEntries) <= |buf|
    ensures r.Ok? ==> |r.value| <= hdr.indexTableEntries
  {
    var recs :- ReadIndexTable(buf, hdr.indexTableEntries);
    var entries :- ExtractEntries(buf, hdr, recs, policy);
    Ok(BuildMap(entries))
  }

  /** The entry record `i` of the file decodes to. */
  ghost function EntryAt(buf: seq<byte>, hdr: Header, i: nat, policy: ValuePolicy): Result<(Key, Data)>
    requires RecordOffset(i + 1) <= |buf|
  {
    DecodeEntry(buf, hdr, RecordAt(buf, i), policy)
  }

  /** The index table of `hdr` lies inside the file and every record in it decodes. */
  ghost predicate AllEntriesDecode(buf: seq<byte>, hdr: Header, policy: ValuePolicy)
  {
    && (hdr.indexTableEntries == 0 || RecordOffset(hdr.indexTableEntries) <= |buf|)
    && forall i :: 0 <= i < hdr.indexTableEntries ==> EntryAt(buf, hdr, i, policy).Ok?
  }

  /**
    Every record of the file decodes exactly when the index table lies in
    the file and, for each record, a zero byte follows its key offset and the
    slot bytes its policy reads lie in the file.
   */
  lemma AllEntriesDecodeIff(buf: seq<byte>, hdr: Header, policy: ValuePolicy)
    ensures AllEntriesDecode(buf, hdr, policy) <==>
      && (hdr.indexTableEntries == 0 || RecordOffset(hdr.indexTableEntries) <= |buf|)
      && forall i :: 0 <= i < hdr.indexTableEntries ==> EntryReadable(buf, hdr, RecordAt(buf, i), policy)
  {
    if hdr.indexTableEntries == 0 || RecordOffset(hdr.indexTableEntries) <= |buf| {
      forall i | 0 <= i < hdr.indexTableEntries
        ensures EntryAt(buf, hdr, i, policy).Ok? <==> EntryReadable(buf, hdr, RecordAt(buf, i), policy)
      {
      }
    }
  }

  /** The entries of the file, read record by record straight from the bytes. */
  ghost function FileEntries(buf: seq<byte>, hdr: Header, policy: ValuePolicy): (es: seq<(Key, Data)>)
    requires AllEntriesDecode(buf, hdr, policy)
    ensures |es| == hdr.indexTableEntries
    ensures forall i :: 0 <= i < |es| ==> es[i] == EntryAt(buf, hdr, i, policy).value
  {
    seq(hdr.indexTableEntries, i requires 0 <= i < hdr.indexTableEntries => EntryAt(buf, hdr, i, policy).value)
  }

  /**
    Decoding the tables succeeds exactly when every record of the index
    table lies in the file and decodes; the map is then the in-order fold of
    those entries, and every failure is a short read.
   */
  lemma DecodeTablesSpec(buf: seq<byte>, hdr: Header, policy: ValuePolicy)
    ensures DecodeTables(buf, hdr, policy).Ok? <==> AllEntriesDecode(buf, hdr, policy)
    ensures DecodeTables(buf, hdr, policy).Err? ==> DecodeTables(buf, hdr, policy).error == Truncated
    ensures AllEntriesDecode(buf, hdr, policy) ==>
      DecodeTables(buf, hdr, policy) == Ok(BuildMap(FileEntries(buf, hdr, policy)))
  {
    var n := hdr.indexTableEntries;
    var recsR := ReadIndexTable(buf, n);
    if recsR.Ok? {
      var recs := recsR.value;
      assert forall i :: 0 <= i < n ==> DecodeEntry(buf, hdr, recs[i], policy) == EntryAt(buf, hdr, i, policy);
      var entriesR := ExtractEntries(buf, hdr, recs, policy);
      if entriesR.Ok? {
        assert entriesR.value == FileEntries(buf, hdr, policy);
      }
    } else {
      assert n > 0 && RecordOffset(n) > |buf|;
    }
  }

  /** The key of every decoded entry is the zero-terminated text at its record's key offset. */
  lemma FileEntryKeys(buf: seq<byte>, hdr: Header, policy: ValuePolicy, i: nat)
    requires AllEntriesDecode(buf, hdr, policy)
    requires i < hdr.indexTableEntries
    ensures TerminatedKeyAt(buf, KeyStart(hdr, RecordAt(buf, i)), FileEntries(buf, hdr, policy)[i].0)
    ensures FileEntries(buf, hdr, policy)[i].1.format == RecordAt(buf, i).paramFormat
  {
    assert EntryAt(buf, hdr, i, policy).Ok?;
  }

  /** The `n` bytes at `start`; empty when `n` is zero, wherever `start` lies. */
  ghost function Slot(buf: seq<byte>, start: nat, n: nat): (s: seq<byte>)
    requires n == 0 || start + n <= |buf|
    ensures |s| == n
    ensures s == ReadAt(buf, start, n).value
  {
    if n == 0 then [] else buf[start..start + n]
  }

  /**
    Under the declared-length policy, the value of every decoded entry is
    exactly `paramLength` bytes of its slot.
   */
  lemma FileEntryValueDeclared(buf: seq<byte>, hdr: Header, i: nat)
    requires AllEntriesDecode(buf, hdr, DeclaredLength)
    requires i < hdr.indexTableEntries
    ensures var rec := RecordAt(buf, i);
      && (rec.paramLength == 0 || SlotStart(hdr, rec) + rec.paramLength <= |buf|)
      && FileEntries(buf, hdr, DeclaredLength)[i].1.data == Slot(buf, SlotStart(hdr, rec), rec.paramLength)
  {
    var rec := RecordAt(buf, i);
    assert EntryAt(buf, hdr, i, DeclaredLength).Ok?;
    var rv := ReadValue(buf, hdr, rec, DeclaredLength);
    assert rv.Ok?;
    assert rv.value == Slot(buf, SlotStart(hdr, rec), rec.paramLength);
  }

  /**
    Under the trimmed policy, the value of every decoded entry is the
    zero-trim of its `paramMaxLength`-byte slot, never longer than the slot.
   */
  lemma FileEntryValueTrimmed(buf: seq<byte>, hdr: Header, i: nat)
    requires AllEntriesDecode(buf, hdr, TrimmedMaxLength)
    requires i < hdr.indexTableEntries
    ensures var rec := RecordAt(buf, i);
      var v := FileEntries(buf, hdr, TrimmedMaxLength)[i].1.data;
      && (rec.paramMaxLength == 0 || SlotStart(hdr, rec) + rec.paramMaxLength <= |buf|)
      && ByteSlices.IsZeroTrimOf(v, Slot(buf, SlotStart(hdr, rec), rec.paramMaxLength))
      && |v| <= rec.paramMaxLength
  {
    var rec := RecordAt(buf, i);
    assert EntryAt(buf, hdr, i, TrimmedMaxLength).Ok?;
    var rv := ReadValue(buf, hdr, rec, TrimmedMaxLength);
    assert rv.Ok?;
    var slot := ReadAt(buf, SlotStart(hdr, rec), rec.paramMaxLength);
    assert slot.value == Slot(buf, SlotStart(hdr, rec), rec.paramMaxLength);
  }

  /** Every key of the folded map is the zero-terminated text at some record's key offset. */
  lemma FoldedKeysFromRecords(buf: seq<byte>, hdr: Header, policy: ValuePolicy, k: Key)
    requires AllEntriesDecode(buf, hdr, policy)
    requires k in BuildMap(FileEntries(buf, hdr, policy))
    ensures exists i :: 0 <= i < hdr.indexTableEntries && TerminatedKeyAt(buf, KeyStart(hdr, RecordAt(buf, i)), k)
  {
    var es := FileEntries(buf, hdr, policy);
    var i :| 0 <= i < |es| && es[i].0 == k;
    FileEntryKeys(buf, hdr, policy, i);
  }

  /**
    If record `i` has key `k` and no later record does, the folded map holds
    record `i`'s entry under `k`.
   */
  lemma FoldedLastRecordWins(buf: seq<byte>, hdr: Header, policy: ValuePolicy, i: nat, k: Key)
    requires AllEntriesDecode(buf, hdr, policy)
    requires i < hdr.indexTableEntries
    requires TerminatedKeyAt(buf, KeyStart(hdr, RecordAt(buf, i)), k)
    requires forall j :: i < j < hdr.indexTableEntries ==> !TerminatedKeyAt(buf, KeyStart(hdr, RecordAt(buf, j)), k)
    ensures k in BuildMap(FileEntries(buf, hdr, policy))
    ensures BuildMap(FileEntries(buf, hdr, policy))[k] == FileEntries(buf, hdr, policy)[i].1
  {
    var es := FileEntries(buf, hdr, policy);
    FileEntryKeys(buf, hdr, policy, i);
    TerminatedKeyUnique(buf, KeyStart(hdr, RecordAt(buf, i)), k, es[i].0);
    forall j | i < j < |es|
      ensures es[j].0 != es[i].0
    {
      FileEntryKeys(buf, hdr, policy, j);
    }
    assert LastWithKey(es, i);
  }

  /** Every key in a decoded map is a zero-free byte string. */
  lemma DecodedKeysHaveNoZero(buf: seq<byte>, hdr: Header, policy: ValuePolicy)
    requires DecodeTables(buf, hdr, policy).Ok?
    ensures forall k :: k in DecodeTables(buf, hdr, policy).value ==> 0 !in k
  {
    DecodeTablesSpec(buf, hdr, policy);
    var es := FileEntries(buf, hdr, policy);
    forall k | k in DecodeTables(buf, hdr, policy).value
      ensures 0 !in k
    {
      var i :| 0 <= i < |es| && es[i].0 == k;
      FileEntryKeys(buf, hdr, policy, i);
    }
  }
}
