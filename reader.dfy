/**
 * FixedLengthReader: reads one record of `length` bytes at a time from a
 * byte stream, skips the line separator that follows it, and turns the
 * record into a map from field names to the values their converters read.
 *
 * The stream is the sequence of its bytes with a cursor. A channel read of
 * n bytes delivers what is left up to n at once (a stream whose bytes are
 * all available), reports end of data (-1) when nothing is left and n > 0,
 * and delivers 0 bytes when n is 0.
 */
module Reader {
  import opened Results
  import opened Charsets
  import opened Config
  import opened Converters
  import opened Layout

  /** ReadRecord: the values of a record and the number of the record they came from. */
  datatype ReadRecord = ReadRecord(data: map<string, Value>, lineNumber: int)

  function Min(a: int, b: int): int
  {
    if a < b then a else b
  }

  // ---------------------------------------------------------------------
  // readValue
  // ---------------------------------------------------------------------

  /**
   * Arrays.copyOfRange(record, from, to): the bytes from `from` up to `to`,
   * padded with zero bytes past the end of the record.
   */
  function CopyOfRange(record: seq<byte>, from: int, to: int): (r: Result<seq<byte>>)
    ensures r.Ok? <==> 0 <= from <= |record| && from <= to
    ensures from > to ==> r == Err(IllegalRange)
    ensures r.Ok? ==> |r.value| == to - from
    ensures r.Ok? ==> forall i :: 0 <= i < |r.value| ==>
      r.value[i] == if from + i < |record| then record[from + i] else 0
  {
    if from > to then Err(IllegalRange)
    else if from < 0 || from > |record| then Err(IndexOutOfRange)
    else if to <= |record| then Ok(record[from..to])
    else Ok(record[from..] + seq(to - |record|, _ => 0 as byte))
  }

  /**
   * readValue: the field's converter applied to its bytes
   * [offset-1, offset-1+length) of the record.
   */
  function ReadValue(cs: Charset, record: seq<byte>, field: FieldConfig): (r: Result<Value>)
    ensures 1 <= field.offset && 0 <= field.length && End(field) <= |record| + 1 ==>
      r == Ok(ConvertOfRead(cs, field.converter, record[field.offset - 1..End(field) - 1]))
    ensures field.length < 0 ==> r == Err(IllegalRange)
  {
    var zeroOffset := field.offset - 1;
    match CopyOfRange(record, zeroOffset, zeroOffset + field.length)
    case Err(e) => Err(e)
    case Ok(fieldValue) => Ok(ConvertOfRead(cs, field.converter, fieldValue))
  }

  /** The names of a list of fields. */
  function Names(fields: seq<FieldConfig>): set<string>
  {
    set i | 0 <= i < |fields| :: fields[i].name
  }

  /**
   * The map the loop over a field list builds: every field's value put
   * under its name in list order, or the error of the first field that
   * cannot be read.
   */
  function FieldsOf(cs: Charset, record: seq<byte>, fields: seq<FieldConfig>): (r: Result<map<string, Value>>)
    ensures r.Ok? ==> r.value.Keys == Names(fields)
    decreases |fields|
  {
    if fields == [] then Ok(map[])
    else
      var last := fields[|fields| - 1];
      match FieldsOf(cs, record, fields[..|fields| - 1])
      case Err(e) => Err(e)
      case Ok(m) =>
        assert fields == fields[..|fields| - 1] + [last];
        match ReadValue(cs, record, last)
        case Err(e) => Err(e)
        case Ok(v) => Ok(m[last.name := v])
  }

  /** Once a prefix fails, the whole list fails with the same error. */
  lemma {:induction false} FieldsOfErrSticks(cs: Charset, record: seq<byte>, fields: seq<FieldConfig>, i: int)
    requires 0 <= i <= |fields|
    requires FieldsOf(cs, record, fields[..i]).Err?
    ensures FieldsOf(cs, record, fields) == FieldsOf(cs, record, fields[..i])
    decreases |fields|
  {
    if i == |fields| {
      assert fields[..i] == fields;
    } else {
      var init := fields[..|fields| - 1];
      assert init[..i] == fields[..i];
      FieldsOfErrSticks(cs, record, init, i);
    }
  }

  /** The loop of readRecord that reads every field of a list into a map. */
  method ReadFields(cs: Charset, record: seq<byte>, fields: seq<FieldConfig>) returns (r: Result<map<string, Value>>)
    ensures r == FieldsOf(cs, record, fields)
  {
    var m: map<string, Value> := map[];
    assert fields[..0] == [];
    for i := 0 to |fields|
      invariant FieldsOf(cs, record, fields[..i]) == Ok(m)
    {
      var fieldConfig := fields[i];
      assert fields[..i + 1][..i] == fields[..i] && fields[..i + 1][i] == fieldConfig;
      var v := ReadValue(cs, record, fieldConfig);
      if v.Err? {
        FieldsOfErrSticks(cs, record, fields, i + 1);
        return Err(v.error);
      }
      m := m[fieldConfig.name := v.value];
    }
    assert fields[..|fields|] == fields;
    return Ok(m);
  }

  /** The fields are read exactly when every one of them can be read. */
  lemma {:induction false} FieldsOfOk(cs: Charset, record: seq<byte>, fields: seq<FieldConfig>)
    ensures FieldsOf(cs, record, fields).Ok? <==> forall i :: 0 <= i < |fields| ==> ReadValue(cs, record, fields[i]).Ok?
    decreases |fields|
  {
    if fields != [] {
      var init := fields[..|fields| - 1];
      FieldsOfOk(cs, record, init);
      assert forall i :: 0 <= i < |init| ==> init[i] == fields[i];
    }
  }

  /** A failure is the error of the first field that cannot be read. */
  lemma {:induction false} FieldsOfFirstError(cs: Charset, record: seq<byte>, fields: seq<FieldConfig>)
    requires FieldsOf(cs, record, fields).Err?
    ensures exists i :: (0 <= i < |fields|
      && (forall j :: 0 <= j < i ==> ReadValue(cs, record, fields[j]).Ok?)
      && ReadValue(cs, record, fields[i]) == Err(FieldsOf(cs, record, fields).error))
    decreases |fields|
  {
    var init := fields[..|fields| - 1];
    assert forall j :: 0 <= j < |init| ==> init[j] == fields[j];
    if FieldsOf(cs, record, init).Err? {
      FieldsOfFirstError(cs, record, init);
      var i :| 0 <= i < |init|
        && (forall j :: 0 <= j < i ==> ReadValue(cs, record, init[j]).Ok?)
        && ReadValue(cs, record, init[i]) == Err(FieldsOf(cs, record, init).error);
      assert ReadValue(cs, record, fields[i]) == Err(FieldsOf(cs, record, fields).error);
    } else {
      FieldsOfOk(cs, record, init);
      var i := |fields| - 1;
      assert forall j :: 0 <= j < i ==> ReadValue(cs, record, fields[j]).Ok?;
    }
  }

  /** Each name holds the value of the last field of that name (a later put replaces an earlier one). */
  lemma {:induction false} FieldsOfValue(cs: Charset, record: seq<byte>, fields: seq<FieldConfig>, i: int)
    requires 0 <= i < |fields|
    requires forall j :: i < j < |fields| ==> fields[j].name != fields[i].name
    requires FieldsOf(cs, record, fields).Ok?
    ensures ReadValue(cs, record, fields[i]).Ok?
    ensures fields[i].name in FieldsOf(cs, record, fields).value
    ensures FieldsOf(cs, record, fields).value[fields[i].name] == ReadValue(cs, record, fields[i]).value
    decreases |fields|
  {
    var init := fields[..|fields| - 1];
    if i < |fields| - 1 {
      assert forall j :: 0 <= j < |init| ==> init[j] == fields[j];
      FieldsOfValue(cs, record, init, i);
    }
  }

  // ---------------------------------------------------------------------
  // readRecord and skipLineSeparator
  // ---------------------------------------------------------------------

  /** What a channel read of `n` bytes at `cursor` delivers: -1 at end of data, otherwise the count. */
  function ReadCount(data: seq<byte>, cursor: int, n: nat): (k: int)
    requires 0 <= cursor <= |data|
    ensures k == -1 <==> n > 0 && cursor == |data|
    ensures k >= 0 ==> k <= n && cursor + k <= |data|
  {
    if n > 0 && cursor == |data| then -1 else Min(n, |data| - cursor)
  }

  /** The outcome of skipLineSeparator: an error, if any, and where the stream is left. */
  datatype Skipped = Skipped(error: Option<Error>, cursor: int)

  /**
   * skipLineSeparator: nothing to skip without a separator or with an empty
   * one; otherwise as many bytes as the separator has chars are read, end
   * of data is accepted, and a short read or bytes that do not decode to
   * the separator are an error carrying the line number.
   */
  function SkipLineSeparator(config: FixedLengthConfig, data: seq<byte>, cursor: int, lineNumber: int): (r: Skipped)
    requires 0 <= cursor <= |data|
    ensures cursor <= r.cursor <= |data|
    ensures r.error.Some? ==> r.error.value == LineSeparatorInvalid(lineNumber)
  {
    match config.lineSeparator
    case None => Skipped(None, cursor)
    case Some(sep) =>
      if sep == [] then Skipped(None, cursor)
      else
        var readLength := ReadCount(data, cursor, |sep|);
        if readLength == -1 then Skipped(None, cursor)
        else
          var next := cursor + readLength;
          if readLength != |sep| then Skipped(Some(LineSeparatorInvalid(lineNumber)), next)
          else if Decode(config.charset, data[cursor..next]) != sep then Skipped(Some(LineSeparatorInvalid(lineNumber)), next)
          else Skipped(None, next)
  }

  /**
   * The values of one record: under a multi layout, the record name the
   * identifier gives plus the map of that layout's fields under the record
   * name; under a single layout, the map of the "single" record's fields.
   * A record name without a definition is a null reference.
   */
  function RecordData(config: FixedLengthConfig, record: seq<byte>): (r: Result<map<string, Value>>)
    ensures r.Ok? && config.identifier.None? ==>
      SINGLE_LAYOUT_RECORD_NAME in config.records
      && r.value.Keys == Names(config.records[SINGLE_LAYOUT_RECORD_NAME])
    ensures r.Ok? && config.identifier.Some? ==>
      var name := config.identifier.value(record);
      name in config.records && FieldsOf(config.charset, record, config.records[name]).Ok?
      && r.value.Keys == {"recordName", name}
      && r.value[name] == Fields(FieldsOf(config.charset, record, config.records[name]).value)
      && (name != "recordName" ==> r.value["recordName"] == RecordName(name))
  {
    if config.identifier.Some? then
      var name := config.identifier.value(record);
      if name !in config.records then Err(NullReference("record config"))
      else
        match FieldsOf(config.charset, record, config.records[name])
        case Err(e) => Err(e)
        case Ok(fields) => Ok(map["recordName" := RecordName(name)][name := Fields(fields)])
    else if SINGLE_LAYOUT_RECORD_NAME !in config.records then Err(NullReference("record config"))
    else FieldsOf(config.charset, record, config.records[SINGLE_LAYOUT_RECORD_NAME])
  }

  /** The outcome of readRecord: null at end of data, a record, or an error; and where the stream is left. */
  datatype Step = Step(result: Result<Option<ReadRecord>>, cursor: int)

  /** readRecord at `cursor`, with `lineNumber` already counted for this call. */
  function ReadStep(config: FixedLengthConfig, data: seq<byte>, cursor: int, lineNumber: int): (r: Step)
    requires 0 <= cursor <= |data|
    ensures cursor <= r.cursor <= |data|
    ensures r.result.Ok? && r.result.value.Some? ==> r.result.value.value.lineNumber == lineNumber
  {
    if config.length < 0 then Step(Err(NegativeCapacity), cursor)
    else
      var readLength := ReadCount(data, cursor, config.length);
      if readLength < 0 then Step(Ok(None), cursor)
      else
        var after := cursor + readLength;
        if readLength != config.length then Step(Err(LastRecordShort(lineNumber)), after)
        else
          var skipped := SkipLineSeparator(config, data, after, lineNumber);
          if skipped.error.Some? then Step(Err(skipped.error.value), skipped.cursor)
          else
            match RecordData(config, data[cursor..after])
            case Err(e) => Step(Err(e), skipped.cursor)
            case Ok(m) => Step(Ok(Some(ReadRecord(m, lineNumber))), skipped.cursor)
  }

  /** FixedLengthReader over the bytes of a stream. */
  class FixedLengthReader {
    const config: FixedLengthConfig
    const data: seq<byte>
    var cursor: int
    var lineNumber: int

    ghost predicate Valid()
      reads this
    {
      0 <= cursor <= |data|
    }

    constructor (data: seq<byte>, config: FixedLengthConfig)
      ensures Valid()
      ensures this.data == data && this.config == config
      ensures cursor == 0 && lineNumber == 0
    {
      this.data := data;
      this.config := config;
      cursor := 0;
      lineNumber := 0;
    }

    /** readableChannel.read into a buffer of `n` bytes. */
    method Read(n: nat) returns (bytes: seq<byte>, readLength: int)
      requires Valid()
      modifies this
      ensures Valid() && lineNumber == old(lineNumber)
      ensures readLength == ReadCount(data, old(cursor), n)
      ensures readLength >= 0 ==> bytes == data[old(cursor)..old(cursor) + readLength] && cursor == old(cursor) + readLength
      ensures readLength < 0 ==> cursor == old(cursor)
    {
      if n > 0 && cursor == |data| {
        return [], -1;
      }
      readLength := Min(n, |data| - cursor);
      bytes := data[cursor..cursor + readLength];
      cursor := cursor + readLength;
    }

    /** skipLineSeparator. */
    method SkipLineSeparatorOnce() returns (err: Option<Error>)
      requires Valid()
      modifies this
      ensures Valid() && lineNumber == old(lineNumber)
      ensures Skipped(err, cursor) == SkipLineSeparator(config, data, old(cursor), lineNumber)
    {
      if config.lineSeparator.None? || config.lineSeparator.value == [] {
        return None;
      }
      var sep := config.lineSeparator.value;
      var bytes, readLength := Read(|sep|);
      if readLength == -1 {
        return None;
      } else if readLength != |sep| {
        return Some(LineSeparatorInvalid(lineNumber));
      } else if Decode(config.charset, bytes) != sep {
        return Some(LineSeparatorInvalid(lineNumber));
      }
      return None;
    }

    /**
     * readRecord: counts the call (once the buffer is allocated), reads a
     * record, skips the separator and reads the fields.
     */
    method ReadRecordOnce() returns (r: Result<Option<ReadRecord>>)
      requires Valid()
      modifies this
      ensures Valid()
      ensures lineNumber == old(lineNumber) + (if config.length < 0 then 0 else 1)
      ensures Step(r, cursor) == ReadStep(config, data, old(cursor), lineNumber)
    {
      if config.length < 0 {
        return Err(NegativeCapacity);
      }
      lineNumber := lineNumber + 1;
      var start := cursor;
      var buffer, readLength := Read(config.length);
      if readLength < 0 {
        return Ok(None);
      }
      if readLength != config.length {
        return Err(LastRecordShort(lineNumber));
      }
      var err := SkipLineSeparatorOnce();
      if err.Some? {
        return Err(err.value);
      }
      var map_: map<string, Value>;
      if config.identifier.Some? {
        var recordName := config.identifier.value(buffer);
        if recordName !in config.records {
          return Err(NullReference("record config"));
        }
        var fields := ReadFields(config.charset, buffer, config.records[recordName]);
        if fields.Err? {
          return Err(fields.error);
        }
        map_ := map["recordName" := RecordName(recordName)][recordName := Fields(fields.value)];
      } else {
        if SINGLE_LAYOUT_RECORD_NAME !in config.records {
          return Err(NullReference("record config"));
        }
        var fields := ReadFields(config.charset, buffer, config.records[SINGLE_LAYOUT_RECORD_NAME]);
        if fields.Err? {
          return Err(fields.error);
        }
        map_ := fields.value;
      }
      return Ok(Some(ReadRecord(map_, lineNumber)));
    }
  }

  // ---------------------------------------------------------------------
  // What readRecord promises
  // ---------------------------------------------------------------------

  /** With no byte left, a read of a positive length returns null and leaves the stream where it is. */
  lemma ReadAtEnd(config: FixedLengthConfig, data: seq<byte>, lineNumber: int)
    requires config.length > 0
    ensures ReadStep(config, data, |data|, lineNumber) == Step(Ok(None), |data|)
  {
  }

  /** With some bytes left but fewer than a record, the read fails as a short last record and consumes them. */
  lemma ReadShort(config: FixedLengthConfig, data: seq<byte>, cursor: int, lineNumber: int)
    requires 0 <= cursor < |data| && |data| - cursor < config.length
    ensures ReadStep(config, data, cursor, lineNumber) == Step(Err(LastRecordShort(lineNumber)), |data|)
  {
  }

  /** A successful read takes the `length` bytes at the cursor as the record, then moves past the separator. */
  lemma ReadTakesRecord(config: FixedLengthConfig, data: seq<byte>, cursor: int, lineNumber: int)
    requires 0 <= cursor <= |data|
    requires ReadStep(config, data, cursor, lineNumber).result.Ok?
    requires ReadStep(config, data, cursor, lineNumber).result.value.Some?
    ensures cursor + config.length <= |data|
    ensures var skipped := SkipLineSeparator(config, data, cursor + config.length, lineNumber);
      var r := ReadStep(config, data, cursor, lineNumber);
      skipped.error.None? && r.cursor == skipped.cursor
      && RecordData(config, data[cursor..cursor + config.length]) == Ok(r.result.value.value.data)
  {
  }

  /** Without a separator, or with an empty one, nothing is skipped. */
  lemma SkipNothing(config: FixedLengthConfig, data: seq<byte>, cursor: int, lineNumber: int)
    requires 0 <= cursor <= |data|
    requires config.lineSeparator.None? || config.lineSeparator.value == []
    ensures SkipLineSeparator(config, data, cursor, lineNumber) == Skipped(None, cursor)
  {
  }

  /** End of data where the separator would be is accepted. */
  lemma SkipAtEnd(config: FixedLengthConfig, data: seq<byte>, lineNumber: int)
    ensures SkipLineSeparator(config, data, |data|, lineNumber) == Skipped(None, |data|)
  {
  }

  /** A separator cut short by the end of data is an error, and what is left is consumed. */
  lemma SkipPartial(config: FixedLengthConfig, data: seq<byte>, cursor: int, lineNumber: int)
    requires config.lineSeparator.Some? && 0 <= cursor < |data|
    requires |data| - cursor < |config.lineSeparator.value|
    ensures SkipLineSeparator(config, data, cursor, lineNumber) == Skipped(Some(LineSeparatorInvalid(lineNumber)), |data|)
  {
  }

  /**
   * Under Latin1, when enough bytes are left, the separator is skipped
   * exactly when the next bytes are its encoding and every char of it fits
   * in a byte; either way as many bytes as it has chars are consumed.
   */
  lemma SkipLatin1(config: FixedLengthConfig, data: seq<byte>, cursor: int, lineNumber: int)
    requires config.charset.Latin1? && config.lineSeparator.Some? && config.lineSeparator.value != []
    requires 0 <= cursor && cursor + |config.lineSeparator.value| <= |data|
    ensures var sep := config.lineSeparator.value;
      var r := SkipLineSeparator(config, data, cursor, lineNumber);
      r.cursor == cursor + |sep|
      && (r.error.None? <==> Representable(sep) && data[cursor..cursor + |sep|] == Encode(Latin1, sep))
  {
    var sep := config.lineSeparator.value;
    var bytes := data[cursor..cursor + |sep|];
    if Decode(Latin1, bytes) == sep {
      Latin1DecodeRepresentable(bytes);
      Latin1EncodeDecode(bytes);
    }
    if Representable(sep) && bytes == Encode(Latin1, sep) {
      Latin1DecodeEncode(sep);
    }
  }

  // ---------------------------------------------------------------------
  // Reading a tiled record
  // ---------------------------------------------------------------------

  lemma TiledFieldsReadable(cs: Charset, record: seq<byte>, fields: seq<FieldConfig>)
    requires Tiles(fields, 1, |record| + 1)
    ensures FieldsOf(cs, record, fields).Ok?
  {
    TilesBounds(fields, 1, |record| + 1);
    forall j | 0 <= j < |fields|
      ensures ReadValue(cs, record, fields[j]).Ok?
    {
      assert 1 <= fields[j].offset && 0 < fields[j].length && End(fields[j]) <= |record| + 1;
    }
    FieldsOfOk(cs, record, fields);
  }

  /**
   * Every field of a layout that tiles the record reads the bytes at its
   * own offset: the record as a whole is read without error, and each name
   * holds the value its last field reads from exactly its bytes.
   */
  lemma ReadTiledRecord(cs: Charset, record: seq<byte>, fields: seq<FieldConfig>, i: int)
    requires Tiles(fields, 1, |record| + 1)
    requires 0 <= i < |fields|
    requires forall j :: i < j < |fields| ==> fields[j].name != fields[i].name
    ensures 1 <= fields[i].offset && 0 < fields[i].length && End(fields[i]) <= |record| + 1
    ensures FieldsOf(cs, record, fields).Ok?
    ensures FieldsOf(cs, record, fields).value[fields[i].name]
      == ConvertOfRead(cs, fields[i].converter, record[fields[i].offset - 1..End(fields[i]) - 1])
  {
    TilesBoundsAt(fields, 1, |record| + 1, i);
    TiledFieldsReadable(cs, record, fields);
    FieldsOfInside(cs, record, fields, i);
  }

  /** A field inside the record, not overridden by a later one of the same name, maps to what it reads from its own bytes. */
  lemma FieldsOfInside(cs: Charset, record: seq<byte>, fields: seq<FieldConfig>, i: int)
    requires 0 <= i < |fields|
    requires forall j :: i < j < |fields| ==> fields[j].name != fields[i].name
    requires 1 <= fields[i].offset && 0 <= fields[i].length && End(fields[i]) <= |record| + 1
    requires FieldsOf(cs, record, fields).Ok?
    ensures FieldsOf(cs, record, fields).value[fields[i].name]
      == ConvertOfRead(cs, fields[i].converter, record[fields[i].offset - 1..End(fields[i]) - 1])
  {
    FieldsOfValue(cs, record, fields, i);
  }
}
