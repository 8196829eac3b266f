/**
 * FixedLengthWriter: encodes the values of a map field by field into a
 * buffer of exactly `length` bytes, following the "single" record's field
 * list, and only when the buffer is exactly full writes it, followed by the
 * line separator, to the output.
 *
 * The output stream is the sequence of bytes written so far.
 */
module Writer {
  import opened Results
  import opened Charsets
  import opened Config
  import opened Converters
  import opened Buffers
  import opened Layout

  /** map.get(name): the value under a name, or null when the name is absent. */
  function Lookup(m: map<string, Value>, name: string): Value
  {
    if name in m then m[name] else Null
  }

  /**
   * The bytes the loop of writeRecord has put after the given fields: each
   * field's encoded value in list order, or the error of the first field
   * whose value cannot be encoded or does not fit in `length` bytes.
   */
  function Assemble(cs: Charset, fields: seq<FieldConfig>, m: map<string, Value>, length: int): (r: Result<seq<byte>>)
    requires length >= 0
    ensures r.Ok? ==> |r.value| <= length
    decreases |fields|
  {
    if fields == [] then Ok([])
    else
      var last := fields[|fields| - 1];
      match Assemble(cs, fields[..|fields| - 1], m, length)
      case Err(e) => Err(e)
      case Ok(acc) =>
        match ConvertOfWrite(cs, last, Lookup(m, last.name))
        case Err(e) => Err(e)
        case Ok(value) =>
          if |acc| + |value| > length then Err(RecordLengthInvalid(length, |acc| + |value|))
          else Ok(acc + value)
  }

  /**
   * The record writeRecord assembles: exactly `length` bytes, or the error
   * that stops it (a negative length, a missing "single" record, a value
   * that cannot be encoded, a buffer that overflows or is left short).
   */
  function RecordBytes(config: FixedLengthConfig, m: map<string, Value>): (r: Result<seq<byte>>)
    ensures r.Ok? ==> |r.value| == config.length
    ensures config.length < 0 ==> r == Err(NegativeCapacity)
  {
    if config.length < 0 then Err(NegativeCapacity)
    else if SINGLE_LAYOUT_RECORD_NAME !in config.records then Err(NullReference("record config"))
    else
      match Assemble(config.charset, config.records[SINGLE_LAYOUT_RECORD_NAME], m, config.length)
      case Err(e) => Err(e)
      case Ok(record) =>
        if |record| < config.length then Err(RecordLengthInvalid(config.length, |record|))
        else Ok(record)
  }

  /** What one writeRecord call appends to the output, and the error it ends with, if any. */
  datatype Emitted = Emitted(bytes: seq<byte>, error: Option<Error>)

  /**
   * writeRecord: nothing is written unless the whole record was assembled;
   * then the record is written, and after it the separator's bytes, which
   * must fit in as many bytes as the separator has chars. A null separator
   * fails only after the record was written.
   */
  function WriteRecordSpec(config: FixedLengthConfig, m: map<string, Value>): (w: Emitted)
    ensures RecordBytes(config, m).Err? ==> w == Emitted([], Some(RecordBytes(config, m).error))
    ensures RecordBytes(config, m).Ok? ==>
      |w.bytes| >= config.length && w.bytes[..config.length] == RecordBytes(config, m).value
    ensures w.error.None? ==>
      (RecordBytes(config, m).Ok? && config.lineSeparator.Some?
       && w.bytes == RecordBytes(config, m).value + Encode(config.charset, config.lineSeparator.value))
  {
    match RecordBytes(config, m)
    case Err(e) => Emitted([], Some(e))
    case Ok(record) =>
      match config.lineSeparator
      case None => Emitted(record, Some(NullReference("line separator")))
      case Some(sep) =>
        var sepBytes := Encode(config.charset, sep);
        if |sepBytes| > |sep| then Emitted(record, Some(BufferOverflow))
        else Emitted(record + sepBytes, None)
  }

  /** The same step, with the bytes so far and field k-1's bytes given by name. */
  lemma AssembleStepOk(cs: Charset, fields: seq<FieldConfig>, m: map<string, Value>, length: int, k: int,
                       acc: seq<byte>, value: seq<byte>)
    requires length >= 0 && 0 < k <= |fields|
    requires Assemble(cs, fields[..k - 1], m, length) == Ok(acc)
    requires ConvertOfWrite(cs, fields[k - 1], Lookup(m, fields[k - 1].name)) == Ok(value)
    requires |acc| + |value| <= length
    ensures Assemble(cs, fields[..k], m, length) == Ok(acc + value)
  {
    AssembleStep(cs, fields, m, length, k);
  }

  /** The loop stops at field k-1 when its value cannot be written. */
  lemma AssembleStepErr(cs: Charset, fields: seq<FieldConfig>, m: map<string, Value>, length: int, k: int,
                        acc: seq<byte>, e: Error)
    requires length >= 0 && 0 < k <= |fields|
    requires Assemble(cs, fields[..k - 1], m, length) == Ok(acc)
    requires ConvertOfWrite(cs, fields[k - 1], Lookup(m, fields[k - 1].name)) == Err(e)
    ensures Assemble(cs, fields[..k], m, length) == Err(e)
  {
    assert fields[..k][..k - 1] == fields[..k - 1];
  }

  /** The loop stops at field k-1 when its bytes do not fit after the bytes before it. */
  lemma AssembleStepOverflow(cs: Charset, fields: seq<FieldConfig>, m: map<string, Value>, length: int, k: int,
                             acc: seq<byte>, value: seq<byte>)
    requires length >= 0 && 0 < k <= |fields|
    requires Assemble(cs, fields[..k - 1], m, length) == Ok(acc)
    requires ConvertOfWrite(cs, fields[k - 1], Lookup(m, fields[k - 1].name)) == Ok(value)
    requires |acc| + |value| > length
    ensures Assemble(cs, fields[..k], m, length) == Err(RecordLengthInvalid(length, |acc| + |value|))
  {
    assert fields[..k][..k - 1] == fields[..k - 1];
  }

  /** Once the loop fails on a prefix of the fields, the whole loop fails with that error. */
  lemma {:induction false} AssembleErrSticks(cs: Charset, fields: seq<FieldConfig>, m: map<string, Value>, length: int, i: int)
    requires length >= 0 && 0 <= i <= |fields|
    requires Assemble(cs, fields[..i], m, length).Err?
    ensures Assemble(cs, fields, m, length) == Assemble(cs, fields[..i], m, length)
    decreases |fields|
  {
    if i == |fields| {
      assert fields[..i] == fields;
    } else {
      var init := fields[..|fields| - 1];
      assert init[..i] == fields[..i];
      AssembleErrSticks(cs, init, m, length, i);
    }
  }

  /** FixedLengthWriter with the bytes written so far. */
  class FixedLengthWriter {
    const config: FixedLengthConfig
    var output: seq<byte>

    constructor (config: FixedLengthConfig)
      ensures this.config == config && output == []
    {
      this.config := config;
      output := [];
    }

    /** The loop of writeRecord: puts every field's encoded value into the buffer. */
    method PutFields(byteBuffer: ByteBuffer, fieldConfigList: seq<FieldConfig>, m: map<string, Value>)
      returns (err: Option<Error>)
      requires byteBuffer.Valid() && byteBuffer.position == 0
      modifies byteBuffer, byteBuffer.data
      ensures byteBuffer.Valid()
      ensures var r := Assemble(config.charset, fieldConfigList, m, byteBuffer.data.Length);
        (err.Some? <==> r.Err?)
        && (err.Some? ==> err.value == r.error)
        && (err.None? ==> byteBuffer.Written() == r.value)
    {
      var length := byteBuffer.data.Length;
      assert fieldConfigList[..0] == [];
      for i := 0 to |fieldConfigList|
        invariant byteBuffer.Valid() && byteBuffer.data.Length == length
        invariant Assemble(config.charset, fieldConfigList[..i], m, length) == Ok(byteBuffer.Written())
      {
        err := PutField(byteBuffer, fieldConfigList, m, length, i);
        if err.Some? {
          return;
        }
      }
      assert fieldConfigList[..|fieldConfigList|] == fieldConfigList;
      return None;
    }

    /** One turn of the loop of writeRecord: puts field i's encoded value after the bytes of the fields before it. */
    method PutField(byteBuffer: ByteBuffer, fieldConfigList: seq<FieldConfig>, m: map<string, Value>, length: int, i: int)
      returns (err: Option<Error>)
      requires byteBuffer.Valid() && byteBuffer.data.Length == length && 0 <= i < |fieldConfigList|
      requires Assemble(config.charset, fieldConfigList[..i], m, length) == Ok(byteBuffer.Written())
      modifies byteBuffer, byteBuffer.data
      ensures byteBuffer.Valid() && byteBuffer.data.Length == length
      ensures err.None? ==> Assemble(config.charset, fieldConfigList[..i + 1], m, length) == Ok(byteBuffer.Written())
      ensures err.Some? ==> Assemble(config.charset, fieldConfigList, m, length) == Err(err.value)
    {
      var fieldConfig := fieldConfigList[i];
      var value := ConvertOfWrite(config.charset, fieldConfig, Lookup(m, fieldConfig.name));
      if value.Err? {
        AssembleStepErr(config.charset, fieldConfigList, m, length, i + 1, byteBuffer.Written(), value.error);
        AssembleErrSticks(config.charset, fieldConfigList, m, length, i + 1);
        return Some(value.error);
      }
      var ok := byteBuffer.Put(value.value);
      if !ok {
        AssembleStepOverflow(config.charset, fieldConfigList, m, length, i + 1, byteBuffer.Written(), value.value);
        AssembleErrSticks(config.charset, fieldConfigList, m, length, i + 1);
        return Some(RecordLengthInvalid(length, byteBuffer.position + |value.value|));
      }
      AssembleStep(config.charset, fieldConfigList, m, length, i + 1);
      return None;
    }

    /**
     * writeRecord(map): assembles the record, checks that it is exactly
     * full, writes it, then writes the line separator.
     */
    method WriteRecord(m: map<string, Value>) returns (err: Option<Error>)
      modifies this
      ensures output == old(output) + WriteRecordSpec(config, m).bytes
      ensures err == WriteRecordSpec(config, m).error
    {
      var configLength := config.length;
      if configLength < 0 {
        return Some(NegativeCapacity);
      }
      var byteBuffer := new ByteBuffer(configLength);
      if SINGLE_LAYOUT_RECORD_NAME !in config.records {
        assert RecordBytes(config, m) == Err(NullReference("record config"));
        return Some(NullReference("record config"));
      }
      var fieldConfigList := config.records[SINGLE_LAYOUT_RECORD_NAME];
      err := PutFields(byteBuffer, fieldConfigList, m);
      if err.Some? {
        assert RecordBytes(config, m) == Err(err.value);
        return err;
      }
      if byteBuffer.position < configLength {
        assert RecordBytes(config, m) == Err(RecordLengthInvalid(configLength, byteBuffer.position));
        return Some(RecordLengthInvalid(configLength, byteBuffer.position));
      }
      assert byteBuffer.data[..] == byteBuffer.Written();
      assert RecordBytes(config, m) == Ok(byteBuffer.data[..]);
      output := output + byteBuffer.data[..];
      err := WriteLineSeparator();
    }

    /** writeLineSeparator: the separator's bytes through a buffer of as many bytes as it has chars. */
    method WriteLineSeparator() returns (err: Option<Error>)
      modifies this
      ensures config.lineSeparator.None? ==> err == Some(NullReference("line separator")) && output == old(output)
      ensures config.lineSeparator.Some? ==>
        var sepBytes := Encode(config.charset, config.lineSeparator.value);
        if |sepBytes| > |config.lineSeparator.value| then err == Some(BufferOverflow) && output == old(output)
        else err.None? && output == old(output) + sepBytes
    {
      if config.lineSeparator.None? {
        return Some(NullReference("line separator"));
      }
      var sep := config.lineSeparator.value;
      var byteBuffer := new ByteBuffer(|sep|);
      var sepBytes := Encode(config.charset, sep);
      var ok := byteBuffer.Put(sepBytes);
      if !ok {
        return Some(BufferOverflow);
      }
      assert byteBuffer.data[..] == sepBytes;
      output := output + byteBuffer.data[..];
      return None;
    }
  }

  // ---------------------------------------------------------------------
  // What writeRecord promises
  // ---------------------------------------------------------------------

  /** Fields that tile [from, to) follow one another: each starts where the previous one ends. */
  lemma {:induction false} TilesOffsets(s: seq<FieldConfig>, from: int, to: int)
    requires Tiles(s, from, to)
    ensures s == [] ==> from == to
    ensures s != [] ==> s[0].offset == from && End(s[|s| - 1]) == to
    ensures forall i :: 0 < i < |s| ==> s[i].offset == End(s[i - 1])
    decreases |s|
  {
    if s != [] {
      TilesOffsets(s[1..], End(s[0]), to);
      if |s| > 1 {
        assert s[|s| - 1] == s[1..][|s| - 2];
      }
      forall i | 0 < i < |s|
        ensures s[i].offset == End(s[i - 1])
      {
        if i > 1 {
          assert s[i] == s[1..][i - 1] && s[i - 1] == s[1..][i - 2];
        }
      }
    }
  }

  /** Where the field at index k of a list starts: at `from` for the first, else where field k-1 ends. */
  function StartOf(s: seq<FieldConfig>, from: int, k: int): int
    requires 0 <= k <= |s|
  {
    if k == 0 then from else End(s[k - 1])
  }

  /** The bytes of a field's value sit in a record at the field's 1-based offset. */
  predicate Placed(record: seq<byte>, f: FieldConfig, value: seq<byte>)
  {
    1 <= f.offset <= End(f) <= |record| + 1 && record[f.offset - 1..End(f) - 1] == value
  }

  /** Every field's value encodes, to exactly the field's length. */
  predicate EncodesToLength(cs: Charset, fields: seq<FieldConfig>, m: map<string, Value>)
  {
    forall i :: 0 <= i < |fields| ==>
      ConvertOfWrite(cs, fields[i], Lookup(m, fields[i].name)).Ok?
      && |ConvertOfWrite(cs, fields[i], Lookup(m, fields[i].name)).value| == fields[i].length
  }

  /** The value bytes of field i, under a layout whose every value encodes. */
  function FieldBytes(cs: Charset, fields: seq<FieldConfig>, m: map<string, Value>, i: int): seq<byte>
    requires 0 <= i < |fields| && EncodesToLength(cs, fields, m)
  {
    ConvertOfWrite(cs, fields[i], Lookup(m, fields[i].name)).value
  }

  /** Appending bytes keeps what was placed before them. */
  lemma PlacedAppend(acc: seq<byte>, f: FieldConfig, value: seq<byte>, more: seq<byte>)
    requires Placed(acc, f, value)
    ensures Placed(acc + more, f, value)
  {
    assert (acc + more)[f.offset - 1..End(f) - 1] == acc[f.offset - 1..End(f) - 1];
  }

  /** A value appended right after `acc` is placed at offset |acc| + 1. */
  lemma PlacedLast(acc: seq<byte>, f: FieldConfig, value: seq<byte>)
    requires f.offset == |acc| + 1 && f.length == |value|
    ensures Placed(acc + value, f, value)
  {
    assert (acc + value)[f.offset - 1..End(f) - 1] == value;
  }

  /** One more step of the loop of writeRecord, when the value fits. */
  lemma AssembleStep(cs: Charset, fields: seq<FieldConfig>, m: map<string, Value>, length: int, k: int)
    requires length >= 0 && 0 < k <= |fields|
    requires Assemble(cs, fields[..k - 1], m, length).Ok?
    requires ConvertOfWrite(cs, fields[k - 1], Lookup(m, fields[k - 1].name)).Ok?
    requires |Assemble(cs, fields[..k - 1], m, length).value|
      + |ConvertOfWrite(cs, fields[k - 1], Lookup(m, fields[k - 1].name)).value| <= length
    ensures Assemble(cs, fields[..k], m, length)
      == Ok(Assemble(cs, fields[..k - 1], m, length).value + ConvertOfWrite(cs, fields[k - 1], Lookup(m, fields[k - 1].name)).value)
  {
    assert fields[..k][..k - 1] == fields[..k - 1];
    assert fields[..k][k - 1] == fields[k - 1];
  }

  /** Appending field k-1's bytes right after the first k-1 fields places all k of them. */
  lemma PlacedExtend(cs: Charset, fields: seq<FieldConfig>, m: map<string, Value>, acc: seq<byte>, k: int)
    requires 0 < k <= |fields| && EncodesToLength(cs, fields, m)
    requires fields[k - 1].offset == |acc| + 1
    requires forall i :: 0 <= i < k - 1 ==> Placed(acc, fields[i], FieldBytes(cs, fields, m, i))
    ensures forall i :: 0 <= i < k ==> Placed(acc + FieldBytes(cs, fields, m, k - 1), fields[i], FieldBytes(cs, fields, m, i))
  {
    var value := FieldBytes(cs, fields, m, k - 1);
    forall i | 0 <= i < k
      ensures Placed(acc + value, fields[i], FieldBytes(cs, fields, m, i))
    {
      if i < k - 1 {
        assert Placed(acc, fields[i], FieldBytes(cs, fields, m, i));
        PlacedAppend(acc, fields[i], FieldBytes(cs, fields, m, i), value);
      } else {
        PlacedLast(acc, fields[i], value);
      }
    }
  }

  /**
   * Over a layout that tiles the record, when every field's value encodes
   * to exactly the field's length, the first k fields are assembled into
   * the bytes before where field k-1 ends, each field's bytes at its own
   * offset.
   */
  lemma {:induction false} AssemblePrefixTiled(cs: Charset, fields: seq<FieldConfig>, m: map<string, Value>, length: int, k: int)
    requires length >= 0 && Tiles(fields, 1, length + 1) && 0 <= k <= |fields|
    requires EncodesToLength(cs, fields, m)
    ensures Assemble(cs, fields[..k], m, length).Ok?
    ensures |Assemble(cs, fields[..k], m, length).value| == StartOf(fields, 1, k) - 1
    ensures forall i :: 0 <= i < k ==> Placed(Assemble(cs, fields[..k], m, length).value, fields[i], FieldBytes(cs, fields, m, i))
    decreases k
  {
    if k == 0 {
      assert fields[..0] == [];
    } else {
      TilesOffsets(fields, 1, length + 1);
      TilesBoundsAt(fields, 1, length + 1, k - 1);
      AssemblePrefixTiled(cs, fields, m, length, k - 1);
      var acc := Assemble(cs, fields[..k - 1], m, length).value;
      AssembleStep(cs, fields, m, length, k);
      PlacedExtend(cs, fields, m, acc, k);
    }
  }

  /**
   * Over a layout that tiles the record (what the single-layout builder
   * produces), when every value encodes to its field's length, the record
   * is assembled whole and every field's bytes sit at its offset.
   */
  lemma AssembleTiled(config: FixedLengthConfig, m: map<string, Value>)
    requires config.length >= 0 && SINGLE_LAYOUT_RECORD_NAME in config.records
    requires Tiles(config.records[SINGLE_LAYOUT_RECORD_NAME], 1, config.length + 1)
    requires EncodesToLength(config.charset, config.records[SINGLE_LAYOUT_RECORD_NAME], m)
    ensures RecordBytes(config, m).Ok?
    ensures var fields := config.records[SINGLE_LAYOUT_RECORD_NAME];
      forall i :: 0 <= i < |fields| ==> Placed(RecordBytes(config, m).value, fields[i], FieldBytes(config.charset, fields, m, i))
  {
    var fields := config.records[SINGLE_LAYOUT_RECORD_NAME];
    AssemblePrefixTiled(config.charset, fields, m, config.length, |fields|);
    assert fields[..|fields|] == fields;
    var record := Assemble(config.charset, fields, m, config.length).value;
    TilesEnd(fields, 1, config.length + 1);
    assert |record| == config.length;
    assert RecordBytes(config, m) == Ok(record);
  }

  /** The whole of a tiling ends where the tiled range ends. */
  lemma TilesEnd(s: seq<FieldConfig>, from: int, to: int)
    requires Tiles(s, from, to)
    ensures StartOf(s, from, |s|) == to
  {
    TilesOffsets(s, from, to);
  }
}
