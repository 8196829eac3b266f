/**
 * What the reader and the writer promise together over a single layout
 * whose fields tile the record (as the single-layout builder leaves it):
 * writing a map and reading the bytes back gives each field the value its
 * converter reads from the bytes written for it, and reading a record and
 * writing the values read gives back the record.
 */
module RoundTrip {
  import opened Results
  import opened Charsets
  import opened Config
  import opened Converters
  import opened Layout
  import opened Reader
  import opened Writer

  /** No two fields of the list share a name. */
  predicate UniqueNames(fields: seq<FieldConfig>)
  {
    forall i, j :: 0 <= i < j < |fields| ==> fields[i].name != fields[j].name
  }

  /** A single-layout configuration under Latin1 whose "single" record tiles the record length. */
  predicate TiledSingle(config: FixedLengthConfig)
  {
    config.identifier.None? && config.charset.Latin1? && config.length > 0
    && SINGLE_LAYOUT_RECORD_NAME in config.records
    && Tiles(config.records[SINGLE_LAYOUT_RECORD_NAME], 1, config.length + 1)
  }

  /** Every field's value writes to the record's own bytes at the field's offset. */
  predicate WritesBack(cs: Charset, fields: seq<FieldConfig>, m: map<string, Value>, record: seq<byte>)
  {
    forall i :: 0 <= i < |fields| ==>
      ConvertOfWrite(cs, fields[i], Lookup(m, fields[i].name)).Ok?
      && Placed(record, fields[i], ConvertOfWrite(cs, fields[i], Lookup(m, fields[i].name)).value)
  }

  /** Field k of a tiling starts where field k-1 ends, the first at `from`. */
  lemma TilesOffsetAt(s: seq<FieldConfig>, from: int, to: int, k: int)
    requires Tiles(s, from, to) && 0 <= k < |s|
    ensures s[k].offset == StartOf(s, from, k)
  {
    TilesOffsets(s, from, to);
  }

  /** One step of AssembleSlices: the next field's bytes extend the rebuilt prefix of the record. */
  lemma AssembleSlicesStep(cs: Charset, fields: seq<FieldConfig>, m: map<string, Value>, record: seq<byte>, k: int,
                           value: seq<byte>)
    requires 0 < k <= |fields| && fields[k - 1].offset == StartOf(fields, 1, k - 1)
    requires ConvertOfWrite(cs, fields[k - 1], Lookup(m, fields[k - 1].name)) == Ok(value)
    requires Placed(record, fields[k - 1], value)
    requires Assemble(cs, fields[..k - 1], m, |record|) == Ok(record[..StartOf(fields, 1, k - 1) - 1])
    ensures StartOf(fields, 1, k) <= |record| + 1
    ensures Assemble(cs, fields[..k], m, |record|) == Ok(record[..StartOf(fields, 1, k) - 1])
  {
    var a, b := StartOf(fields, 1, k - 1) - 1, StartOf(fields, 1, k) - 1;
    assert b == End(fields[k - 1]) - 1;
    AssembleStepOk(cs, fields, m, |record|, k, record[..a], record[a..b]);
    assert record[..a] + record[a..b] == record[..b];
  }

  /** Each field starts where the one before it ends, the first at `from`. */
  predicate Consecutive(fields: seq<FieldConfig>, from: int)
  {
    forall i :: 0 <= i < |fields| ==> fields[i].offset == StartOf(fields, from, i)
  }

  lemma TilesConsecutive(fields: seq<FieldConfig>, from: int, to: int)
    requires Tiles(fields, from, to)
    ensures Consecutive(fields, from)
  {
    forall i | 0 <= i < |fields|
      ensures fields[i].offset == StartOf(fields, from, i)
    {
      TilesOffsetAt(fields, from, to, i);
    }
  }

  /** When every field's write gives back the record's own bytes for it, the loop of writeRecord rebuilds the record. */
  lemma {:induction false} AssembleSlices(cs: Charset, fields: seq<FieldConfig>, m: map<string, Value>, record: seq<byte>, k: int)
    requires Consecutive(fields, 1) && 0 <= k <= |fields|
    requires WritesBack(cs, fields, m, record)
    ensures 1 <= StartOf(fields, 1, k) <= |record| + 1
    ensures Assemble(cs, fields[..k], m, |record|) == Ok(record[..StartOf(fields, 1, k) - 1])
    decreases k
  {
    if k == 0 {
      assert fields[..0] == [];
    } else {
      AssembleSlices(cs, fields, m, record, k - 1);
      WritesBackAt(cs, fields, m, record, k - 1);
      AssembleSlicesStep(cs, fields, m, record, k, ConvertOfWrite(cs, fields[k - 1], Lookup(m, fields[k - 1].name)).value);
    }
  }

  lemma WritesBackAt(cs: Charset, fields: seq<FieldConfig>, m: map<string, Value>, record: seq<byte>, i: int)
    requires WritesBack(cs, fields, m, record) && 0 <= i < |fields|
    ensures ConvertOfWrite(cs, fields[i], Lookup(m, fields[i].name)).Ok?
    ensures Placed(record, fields[i], ConvertOfWrite(cs, fields[i], Lookup(m, fields[i].name)).value)
  {
  }

  /**
   * Reading a record and writing back the values read reproduces the
   * record, byte for byte, when every converter of the layout can give
   * back what it read and no two fields share a name.
   */
  lemma ReadThenWrite(config: FixedLengthConfig, record: seq<byte>)
    requires TiledSingle(config) && |record| == config.length
    requires UniqueNames(config.records[SINGLE_LAYOUT_RECORD_NAME])
    requires forall f :: f in config.records[SINGLE_LAYOUT_RECORD_NAME] ==> Reversible(f.converter)
    ensures RecordData(config, record).Ok?
    ensures RecordBytes(config, RecordData(config, record).value) == Ok(record)
  {
    var fields := config.records[SINGLE_LAYOUT_RECORD_NAME];
    TiledFieldsReadable(Latin1, record, fields);
    var m := FieldsOf(Latin1, record, fields).value;
    assert RecordData(config, record) == Ok(m);
    ReadValuesWriteBack(record, fields);
    TilesConsecutive(fields, 1, |record| + 1);
    AssembleSlices(Latin1, fields, m, record, |fields|);
    TilesEnd(fields, 1, |record| + 1);
    assert fields[..|fields|] == fields;
    assert record[..|record|] == record;
  }

  /** Every value read from a tiled record writes back to the field's own bytes. */
  lemma ReadValuesWriteBack(record: seq<byte>, fields: seq<FieldConfig>)
    requires Tiles(fields, 1, |record| + 1) && UniqueNames(fields)
    requires forall f :: f in fields ==> Reversible(f.converter)
    ensures FieldsOf(Latin1, record, fields).Ok?
    ensures WritesBack(Latin1, fields, FieldsOf(Latin1, record, fields).value, record)
  {
    TiledFieldsReadable(Latin1, record, fields);
    var m := FieldsOf(Latin1, record, fields).value;
    forall i | 0 <= i < |fields|
      ensures ConvertOfWrite(Latin1, fields[i], Lookup(m, fields[i].name)).Ok?
      ensures Placed(record, fields[i], ConvertOfWrite(Latin1, fields[i], Lookup(m, fields[i].name)).value)
    {
      ReadValueWritesBack(record, fields, i);
    }
  }

  /** The value read for one field of a tiled record writes back to the field's own bytes. */
  lemma ReadValueWritesBack(record: seq<byte>, fields: seq<FieldConfig>, i: int)
    requires Tiles(fields, 1, |record| + 1) && 0 <= i < |fields|
    requires UniqueNames(fields) && Reversible(fields[i].converter)
    ensures FieldsOf(Latin1, record, fields).Ok?
    ensures var m := FieldsOf(Latin1, record, fields).value;
      ConvertOfWrite(Latin1, fields[i], Lookup(m, fields[i].name)).Ok?
      && Placed(record, fields[i], ConvertOfWrite(Latin1, fields[i], Lookup(m, fields[i].name)).value)
  {
    ReadTiledRecord(Latin1, record, fields, i);
    FieldsOfNames(Latin1, record, fields, i);
    var slice := record[fields[i].offset - 1..End(fields[i]) - 1];
    ReadWriteRoundTrip(fields[i], slice);
  }

  /** A field's name is a key of the map read from a record. */
  lemma FieldsOfNames(cs: Charset, record: seq<byte>, fields: seq<FieldConfig>, i: int)
    requires 0 <= i < |fields| && FieldsOf(cs, record, fields).Ok?
    ensures fields[i].name in FieldsOf(cs, record, fields).value
  {
    assert fields[i].name in Names(fields);
  }

  /**
   * The read step over the bytes written for a map, whatever follows them:
   * the record read is the map read from the assembled record, and the
   * cursor lands after the separator.
   */
  lemma WrittenRecordStep(config: FixedLengthConfig, m: map<string, Value>, rest: seq<byte>, lineNumber: int)
    requires TiledSingle(config)
    requires config.lineSeparator.Some? && Representable(config.lineSeparator.value)
    requires EncodesToLength(config.charset, config.records[SINGLE_LAYOUT_RECORD_NAME], m)
    ensures RecordBytes(config, m).Ok? && WriteRecordSpec(config, m).error.None?
    ensures |RecordBytes(config, m).value| == config.length
    ensures FieldsOf(Latin1, RecordBytes(config, m).value, config.records[SINGLE_LAYOUT_RECORD_NAME]).Ok?
    ensures ReadStep(config, WriteRecordSpec(config, m).bytes + rest, 0, lineNumber)
      == Step(Ok(Some(ReadRecord(FieldsOf(Latin1, RecordBytes(config, m).value, config.records[SINGLE_LAYOUT_RECORD_NAME]).value, lineNumber))),
              |WriteRecordSpec(config, m).bytes|)
  {
    var fields := config.records[SINGLE_LAYOUT_RECORD_NAME];
    var sep := config.lineSeparator.value;
    AssembleTiled(config, m);
    var record := RecordBytes(config, m).value;
    var written := WriteRecordSpec(config, m).bytes;
    assert written == record + Encode(Latin1, sep);
    var data := written + rest;
    var L := config.length;
    assert data[0..L] == record;
    if sep != [] {
      SkipLatin1(config, data, L, lineNumber);
      assert data[L..L + |sep|] == Encode(Latin1, sep);
    }
    TiledFieldsReadable(Latin1, record, fields);
  }

  /**
   * Writing a map whose every value encodes to its field's length, then
   * reading the bytes written (whatever follows them), gives the record
   * at line `lineNumber`, leaves the stream after the separator, and gives
   * each field the value its converter reads from the bytes written for it.
   */
  lemma WriteThenRead(config: FixedLengthConfig, m: map<string, Value>, rest: seq<byte>, lineNumber: int)
    requires TiledSingle(config)
    requires config.lineSeparator.Some? && Representable(config.lineSeparator.value)
    requires UniqueNames(config.records[SINGLE_LAYOUT_RECORD_NAME])
    requires EncodesToLength(config.charset, config.records[SINGLE_LAYOUT_RECORD_NAME], m)
    ensures WriteRecordSpec(config, m).error.None?
    ensures var written := WriteRecordSpec(config, m).bytes;
      var step := ReadStep(config, written + rest, 0, lineNumber);
      step.cursor == |written| && step.result.Ok? && step.result.value.Some?
      && step.result.value.value.lineNumber == lineNumber
    ensures var written := WriteRecordSpec(config, m).bytes;
      var step := ReadStep(config, written + rest, 0, lineNumber);
      var fields := config.records[SINGLE_LAYOUT_RECORD_NAME];
      step.result.Ok? && step.result.value.Some? ==>
        forall i :: 0 <= i < |fields| ==>
          fields[i].name in step.result.value.value.data
          && step.result.value.value.data[fields[i].name]
            == ConvertOfRead(Latin1, fields[i].converter, FieldBytes(Latin1, fields, m, i))
  {
    var fields := config.records[SINGLE_LAYOUT_RECORD_NAME];
    WrittenRecordStep(config, m, rest, lineNumber);
    AssembleTiled(config, m);
    var record := RecordBytes(config, m).value;
    var read := FieldsOf(Latin1, record, fields).value;
    forall i | 0 <= i < |fields|
      ensures fields[i].name in read
      ensures read[fields[i].name] == ConvertOfRead(Latin1, fields[i].converter, FieldBytes(Latin1, fields, m, i))
    {
      ReadTiledRecord(Latin1, record, fields, i);
      FieldsOfNames(Latin1, record, fields, i);
    }
  }
}
