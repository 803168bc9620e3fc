/**
  A one-entry file worked through both decoders: key `CATEGORY`, format tag
  516, declared length 3, a 4-byte slot holding `mg` and two zero bytes.
  The tool strips the padding; the library keeps the declared three bytes,
  terminator included.
 */
module WorkedExample {
  import opened LittleEndian
  import opened SfoFormat
  import ByteSlices
  import Cli
  import SfoReader

  const CategoryKey: seq<byte> := [0x43, 0x41, 0x54, 0x45, 0x47, 0x4F, 0x52, 0x59]
  const CategorySlot: seq<byte> := [0x6D, 0x67, 0, 0]

  /** Keys start right after the one index record, values right after the key. */
  const CategoryHeader := Header(1179865088, 257, 36, 45, 1)
  const CategoryRecord := IndexRecord(0, FormatUtf8, 3, 4, 0)

  function Tables(): seq<byte>
  {
    EncodeIndexTable([CategoryRecord]) + CategoryKey + [0] + CategorySlot
  }

  function CategoryFile(): seq<byte>
  {
    EncodeHeader(CategoryHeader) + Tables()
  }

  lemma CategoryLayout()
    ensures |CategoryFile()| == 49
    ensures CategoryFile()[36..44] == CategoryKey && CategoryFile()[44] == 0
    ensures CategoryFile()[45..49] == CategorySlot
  {
    var f := CategoryFile();
    assert f == EncodeHeader(CategoryHeader) + EncodeIndexTable([CategoryRecord]) + CategoryKey + [0] + CategorySlot;
  }

  lemma CategoryIndex()
    ensures ReadIndexTable(CategoryFile(), 1) == Ok([CategoryRecord])
  {
    var rest := CategoryKey + [0] + CategorySlot;
    assert CategoryFile() == EncodeHeader(CategoryHeader) + EncodeIndexTable([CategoryRecord]) + rest;
    ReadIndexTableRoundTrip(EncodeHeader(CategoryHeader), [CategoryRecord], rest);
  }

  lemma CategoryKeyScan()
    ensures ScanKey(CategoryFile(), 36) == Ok(CategoryKey)
  {
    CategoryLayout();
    var buf := CategoryFile();
    assert TerminatedKeyAt(buf, 36, CategoryKey);
    var key := ScanKey(buf, 36);
    assert buf[44] == 0;
    TerminatedKeyUnique(buf, 36, key.value, CategoryKey);
  }

  lemma CategoryTrimmed()
    ensures ReadValue(CategoryFile(), CategoryHeader, CategoryRecord, TrimmedMaxLength) == Ok([0x6D, 0x67])
  {
    CategoryLayout();
    var buf := CategoryFile();
    assert SlotStart(CategoryHeader, CategoryRecord) == 45;
    assert ReadAt(buf, 45, 4) == Ok(CategorySlot);
    assert CategorySlot == ByteSlices.Zeros(0) + [0x6D, 0x67] + ByteSlices.Zeros(2);
    ByteSlices.TrimZerosPadded(0, [0x6D, 0x67], 2);
  }

  lemma CategoryDeclared()
    ensures ReadValue(CategoryFile(), CategoryHeader, CategoryRecord, DeclaredLength) == Ok([0x6D, 0x67, 0])
  {
    CategoryLayout();
    var buf := CategoryFile();
    assert SlotStart(CategoryHeader, CategoryRecord) == 45;
    var v := ReadValue(buf, CategoryHeader, CategoryRecord, DeclaredLength);
    assert v.Ok? && |v.value| == 3;
    assert buf[45] == 0x6D && buf[46] == 0x67 && buf[47] == 0 by {
      assert buf[45..49] == CategorySlot;
    }
    assert v.value[0] == 0x6D && v.value[1] == 0x67 && v.value[2] == 0;
    assert v.value == [0x6D, 0x67, 0];
  }

  lemma CategoryEntry(policy: ValuePolicy, value: seq<byte>)
    requires ReadValue(CategoryFile(), CategoryHeader, CategoryRecord, policy) == Ok(value)
    ensures DecodeEntry(CategoryFile(), CategoryHeader, CategoryRecord, policy)
         == Ok((CategoryKey, Data(value, FormatUtf8)))
  {
    assert KeyStart(CategoryHeader, CategoryRecord) == 36;
    CategoryKeyScan();
  }

  lemma CategoryExtract(policy: ValuePolicy, value: seq<byte>)
    requires ReadValue(CategoryFile(), CategoryHeader, CategoryRecord, policy) == Ok(value)
    ensures ExtractEntries(CategoryFile(), CategoryHeader, [CategoryRecord], policy)
         == Ok([(CategoryKey, Data(value, FormatUtf8))])
  {
    CategoryEntry(policy, value);
    var es := ExtractEntries(CategoryFile(), CategoryHeader, [CategoryRecord], policy);
    assert es.Ok? && |es.value| == 1;
    assert es.value[0] == (CategoryKey, Data(value, FormatUtf8));
    assert es.value == [(CategoryKey, Data(value, FormatUtf8))];
  }

  lemma CategoryTables(policy: ValuePolicy, value: seq<byte>)
    requires ReadValue(CategoryFile(), CategoryHeader, CategoryRecord, policy) == Ok(value)
    ensures DecodeTables(CategoryFile(), CategoryHeader, policy) == Ok(map[CategoryKey := Data(value, FormatUtf8)])
  {
    CategoryIndex();
    CategoryExtract(policy, value);
    BuildMapSingle((CategoryKey, Data(value, FormatUtf8)));
  }

  lemma BuildMapSingle(e: (Key, Data))
    ensures BuildMap([e]) == map[e.0 := e.1]
  {
    var none: seq<(Key, Data)> := [];
    assert [e][..0] == none;
  }

  /** The tool decodes the file to `CATEGORY` holding `mg`, padding stripped. */
  lemma CategoryExample()
    ensures Cli.ParseFile(CategoryFile()) == Ok(map[CategoryKey := Data([0x6D, 0x67], FormatUtf8)])
  {
    ReadHeaderRoundTrip(CategoryHeader, Tables());
    CategoryTrimmed();
    CategoryTables(TrimmedMaxLength, [0x6D, 0x67]);
  }

  /** The library decodes the same file to `CATEGORY` holding the declared three bytes `mg\0`. */
  lemma CategoryExampleLibrary()
    ensures SfoReader.ParseFile(CategoryFile()) == Ok(map[CategoryKey := Data([0x6D, 0x67, 0], FormatUtf8)])
  {
    ReadHeaderRoundTrip(CategoryHeader, Tables());
    CategoryDeclared();
    CategoryTables(DeclaredLength, [0x6D, 0x67, 0]);
  }
}
