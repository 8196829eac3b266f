/**
 * The CSV mapping layer: CsvMapMapper reads rows from a CSV reader and
 * binds each to a map keyed by the configured keys; MapCsvMapper turns maps
 * into rows in key order and hands them to a CSV writer.
 *
 * The CSV reader and writer themselves (tokenizing, quoting) are outside
 * the model: the reader is a sequence of rows, each with the line number
 * the reader reports after it, and the writer is the sequence of rows
 * written to it.
 */
module Csv {
  import opened Results

  /** A row as the CSV reader gives it: each field is a string or null. */
  type Row = seq<Option<string>>

  /** The settings the mappers consult. */
  datatype CsvConfig = CsvConfig(
    headerTitles: seq<string>,
    properties: seq<string>,
    requiredHeader: bool,
    ignoreEmptyLine: bool)

  /**
   * getProperties: the configured property names when there are any, else
   * the header titles. The keys the mappers bind values to are chosen the
   * same way.
   */
  function Properties(config: CsvConfig): (r: seq<string>)
    ensures |config.properties| > 0 ==> r == config.properties
    ensures config.properties == [] ==> r == config.headerTitles
  {
    if |config.properties| > 0 then config.properties else config.headerTitles
  }

  /** isEmptyLine: a row (not the end of data) of exactly one field that is null or empty. */
  predicate IsEmptyLine(record: Option<Row>): (b: bool)
    ensures b <==> record == Some([None]) || record == Some([Some("")])
  {
    assert record.Some? && |record.value| == 1 ==> record.value == [record.value[0]];
    record.Some? && |record.value| == 1 && (record.value[0].None? || record.value[0].value == "")
  }

  // ---------------------------------------------------------------------
  // The CSV reader, as a source of rows
  // ---------------------------------------------------------------------

  /** A CSV reader over a fixed sequence of rows; `lines[i]` is its line number once row i is read. */
  class RowSource {
    const rows: seq<Row>
    const lines: seq<int>
    var index: nat

    ghost predicate Valid()
      reads this
    {
      |lines| == |rows| && index <= |rows|
    }

    constructor (rows: seq<Row>, lines: seq<int>)
      requires |lines| == |rows|
      ensures Valid() && this.rows == rows && this.lines == lines && index == 0
    {
      this.rows := rows;
      this.lines := lines;
      index := 0;
    }

    /** getLineNumber: the line number reached by the rows read so far. */
    function LineNumber(): int
      reads this
      requires Valid()
    {
      if index == 0 then 0 else lines[index - 1]
    }

    /** read: the next row, or null at the end of the data. */
    method Read() returns (record: Option<Row>)
      requires Valid()
      modifies this
      ensures Valid()
      ensures old(index) < |rows| ==> record == Some(rows[old(index)]) && index == old(index) + 1
      ensures old(index) == |rows| ==> record.None? && index == old(index)
    {
      if index < |rows| {
        record := Some(rows[index]);
        index := index + 1;
      } else {
        record := None;
      }
    }
  }

  /** The row the reader gives at `index`, or null at the end. */
  function RowAt(rows: seq<Row>, index: nat): Option<Row>
  {
    if index < |rows| then Some(rows[index]) else None
  }

  /** The index of the first row at or after `index` that is not an empty line, or the end. */
  function SkipEmptyLines(rows: seq<Row>, index: nat): (j: nat)
    requires index <= |rows|
    ensures index <= j <= |rows|
    ensures forall k :: index <= k < j ==> IsEmptyLine(Some(rows[k]))
    ensures j < |rows| ==> !IsEmptyLine(Some(rows[j]))
    decreases |rows| - index
  {
    if index < |rows| && IsEmptyLine(Some(rows[index])) then SkipEmptyLines(rows, index + 1) else index
  }

  /**
   * readLine from `index`: the row returned and the index after it. With
   * empty lines ignored, the empty lines before the row are consumed too.
   */
  function NextLine(rows: seq<Row>, index: nat, ignoreEmptyLine: bool): (Option<Row>, nat)
    requires index <= |rows|
  {
    var j := if ignoreEmptyLine then SkipEmptyLines(rows, index) else index;
    if j < |rows| then (Some(rows[j]), j + 1) else (None, j)
  }

  /** Without empty-line skipping, readLine gives the next row as it is, blank or not. */
  lemma NextLineAsIs(rows: seq<Row>, index: nat)
    requires index <= |rows|
    ensures NextLine(rows, index, false) == (RowAt(rows, index), if index < |rows| then index + 1 else index)
  {
  }

  /**
   * With empty-line skipping, readLine gives the first row from `index`
   * that is not an empty line, or null when only empty lines are left; in
   * both cases it never returns an empty line.
   */
  lemma {:induction false} NextLineSkips(rows: seq<Row>, index: nat)
    requires index <= |rows|
    ensures !IsEmptyLine(NextLine(rows, index, true).0)
    ensures NextLine(rows, index, true).0.None? <==> forall k :: index <= k < |rows| ==> IsEmptyLine(Some(rows[k]))
    ensures NextLine(rows, index, true).0.Some? ==>
      exists k :: (index <= k < |rows| && NextLine(rows, index, true) == (Some(rows[k]), k + 1)
        && forall i :: index <= i < k ==> IsEmptyLine(Some(rows[i])))
  {
    var j := SkipEmptyLines(rows, index);
    if j < |rows| {
      assert NextLine(rows, index, true) == (Some(rows[j]), j + 1);
    }
  }

  // ---------------------------------------------------------------------
  // CsvMapMapper
  // ---------------------------------------------------------------------

  /** verifyFieldCount: a row must have as many fields as there are keys. */
  function VerifyFieldCount(keys: seq<string>, record: Row, lineNumber: int): (r: Option<Error>)
    ensures r.None? <==> |keys| == |record|
    ensures r.Some? ==> r.value == PropertySizeMismatch(|keys|, |record|, lineNumber)
  {
    if |keys| != |record| then Some(PropertySizeMismatch(|keys|, |record|, lineNumber)) else None
  }

  /** The map createMap builds: keys[i] put to record[i] in order, so a repeated key keeps its last value. */
  function ZipMap(keys: seq<string>, record: Row): (m: map<string, Option<string>>)
    requires |keys| == |record|
    ensures m.Keys == set k | k in keys
    decreases |keys|
  {
    if keys == [] then map[]
    else
      var n := |keys| - 1;
      ZipMap(keys[..n], record[..n])[keys[n] := record[n]]
  }

  /** No key is repeated. */
  predicate Distinct(keys: seq<string>)
  {
    forall i, j :: 0 <= i < j < |keys| ==> keys[i] != keys[j]
  }

  /** Each key maps to the field of its last occurrence in the key list. */
  lemma {:induction false} ZipMapValue(keys: seq<string>, record: Row, i: int)
    requires |keys| == |record| && 0 <= i < |keys|
    requires forall j :: i < j < |keys| ==> keys[j] != keys[i]
    ensures keys[i] in ZipMap(keys, record) && ZipMap(keys, record)[keys[i]] == record[i]
    decreases |keys|
  {
    var n := |keys| - 1;
    if i < n {
      ZipMapValue(keys[..n], record[..n], i);
    }
  }

  /** With distinct keys the map has exactly one entry per key. */
  lemma {:induction false} ZipMapSize(keys: seq<string>, record: Row)
    requires |keys| == |record| && Distinct(keys)
    ensures |ZipMap(keys, record)| == |keys|
    decreases |keys|
  {
    if keys != [] {
      var n := |keys| - 1;
      ZipMapSize(keys[..n], record[..n]);
      assert keys[n] !in keys[..n];
    }
  }

  /** A CsvMapMapper over a CSV reader. */
  class CsvMapMapper {
    const config: CsvConfig
    const properties: seq<string>
    const reader: RowSource

    ghost predicate Valid()
      reads this, reader
    {
      reader.Valid() && properties == Properties(config)
    }

    /** The constructor: with a header required, the header row is read (skipping empty lines when they are ignored) and dropped. */
    constructor (config: CsvConfig, reader: RowSource)
      requires reader.Valid()
      modifies reader
      ensures Valid() && this.config == config && this.reader == reader
      ensures reader.index == if config.requiredHeader then NextLine(reader.rows, old(reader.index), config.ignoreEmptyLine).1 else old(reader.index)
    {
      this.config := config;
      this.properties := Properties(config);
      this.reader := reader;
      new;
      var _ := ReadHeader();
    }

    /** readLine: the next row, skipping empty lines when they are ignored. */
    method ReadLine() returns (record: Option<Row>)
      requires Valid()
      modifies reader
      ensures Valid()
      ensures (record, reader.index) == NextLine(reader.rows, old(reader.index), config.ignoreEmptyLine)
    {
      ghost var start := reader.index;
      record := reader.Read();
      while config.ignoreEmptyLine && IsEmptyLine(record)
        invariant Valid() && start <= reader.index
        invariant record.Some? ==> reader.index > 0 && record == Some(reader.rows[reader.index - 1])
        invariant record.None? ==> reader.index == |reader.rows|
        invariant config.ignoreEmptyLine ==>
          SkipEmptyLines(reader.rows, start) == SkipEmptyLines(reader.rows, if record.Some? then reader.index - 1 else reader.index)
        invariant !config.ignoreEmptyLine ==>
          (record == RowAt(reader.rows, start) && reader.index == if start < |reader.rows| then start + 1 else start)
        decreases (if record.Some? then 1 else 0) + |reader.rows| - reader.index
      {
        record := reader.Read();
      }
    }

    /** readHeader: a row when a header is required, otherwise nothing read and null. */
    method ReadHeader() returns (header: Option<Row>)
      requires Valid()
      modifies reader
      ensures Valid()
      ensures config.requiredHeader ==> (header, reader.index) == NextLine(reader.rows, old(reader.index), config.ignoreEmptyLine)
      ensures !config.requiredHeader ==> header.None? && reader.index == old(reader.index)
    {
      if config.requiredHeader {
        header := ReadLine();
      } else {
        header := None;
      }
    }

    /** createMap: puts each key to the field at its position. */
    method CreateMap(record: Row) returns (m: map<string, Option<string>>)
      requires |properties| == |record|
      ensures m == ZipMap(properties, record)
    {
      m := map[];
      for i := 0 to |record|
        invariant m == ZipMap(properties[..i], record[..i])
      {
        assert properties[..i + 1][..i] == properties[..i] && record[..i + 1][..i] == record[..i];
        m := m[properties[i] := record[i]];
      }
      assert properties[..|record|] == properties && record[..|record|] == record;
    }

    /** read: null at the end of the data; otherwise the next row, checked against the keys and bound to them. */
    method Read() returns (r: Result<Option<map<string, Option<string>>>>)
      requires Valid()
      modifies reader
      ensures Valid()
      ensures var (record, next) := NextLine(reader.rows, old(reader.index), config.ignoreEmptyLine);
        reader.index == next
        && r == ReadSpec(properties, record, reader.LineNumber())
    {
      var record := ReadLine();
      if record.None? {
        return Ok(None);
      }
      var err := VerifyFieldCount(properties, record.value, reader.LineNumber());
      if err.Some? {
        return Err(err.value);
      }
      var m := CreateMap(record.value);
      return Ok(Some(m));
    }

    /** write: not supported by a reading mapper. */
    method Write(m: map<string, Option<string>>) returns (err: Error)
      ensures err == UnsupportedWrite
    {
      err := UnsupportedWrite;
    }
  }

  /**
   * What read gives for the row readLine returned: null at the end, the
   * field-count error with the reader's line number, or the bound map.
   */
  function ReadSpec(keys: seq<string>, record: Option<Row>, lineNumber: int): (r: Result<Option<map<string, Option<string>>>>)
    ensures record.None? ==> r == Ok(None)
    ensures record.Some? && |record.value| != |keys| ==> r == Err(PropertySizeMismatch(|keys|, |record.value|, lineNumber))
    ensures record.Some? && |record.value| == |keys| ==> r.Ok? && r.value.Some?
    ensures r.Ok? && r.value.Some? ==>
      (record.Some? && |record.value| == |keys|
       && r.value.value.Keys == (set k | k in keys)
       && forall i :: 0 <= i < |keys| && (forall j :: i < j < |keys| ==> keys[j] != keys[i]) ==> r.value.value[keys[i]] == record.value[i])
  {
    if record.None? then Ok(None)
    else if |record.value| != |keys| then Err(PropertySizeMismatch(|keys|, |record.value|, lineNumber))
    else
      ZipMapValues(keys, record.value);
      Ok(Some(ZipMap(keys, record.value)))
  }

  /** Every key maps to the field of its last occurrence. */
  lemma ZipMapValues(keys: seq<string>, record: Row)
    requires |keys| == |record|
    ensures forall i :: 0 <= i < |keys| && (forall j :: i < j < |keys| ==> keys[j] != keys[i]) ==> ZipMap(keys, record)[keys[i]] == record[i]
  {
    forall i | 0 <= i < |keys| && (forall j :: i < j < |keys| ==> keys[j] != keys[i])
      ensures ZipMap(keys, record)[keys[i]] == record[i]
    {
      ZipMapValue(keys, record, i);
    }
  }

  // ---------------------------------------------------------------------
  // The CSV writer, as a sink of rows, and MapCsvMapper
  // ---------------------------------------------------------------------

  /** A CSV writer, as the rows written to it. */
  class RowSink {
    var rows: seq<Row>

    constructor ()
      ensures rows == []
    {
      rows := [];
    }

    /** write: one more row. */
    method Write(row: Row)
      modifies this
      ensures rows == old(rows) + [row]
    {
      rows := rows + [row];
    }
  }

  /** map.get(key): the value, or null when the key is absent. */
  function Get(m: map<string, Option<string>>, key: string): Option<string>
  {
    if key in m then m[key] else None
  }

  /** The row convertValues gives: the map's value for each key, in key order. */
  function ValuesOf(keys: seq<string>, m: map<string, Option<string>>): (r: Row)
    ensures |r| == |keys|
    ensures forall i :: 0 <= i < |keys| ==> r[i] == Get(m, keys[i])
  {
    seq(|keys|, i requires 0 <= i < |keys| => Get(m, keys[i]))
  }

  /** The header row: the header titles, whatever the properties are. */
  function HeaderRow(config: CsvConfig): (r: Row)
    ensures |r| == |config.headerTitles|
    ensures forall i :: 0 <= i < |r| ==> r[i] == Some(config.headerTitles[i])
  {
    seq(|config.headerTitles|, i requires 0 <= i < |config.headerTitles| => Some(config.headerTitles[i]))
  }

  /** A MapCsvMapper over a CSV writer. */
  class MapCsvMapper {
    const config: CsvConfig
    const properties: seq<string>
    const writer: RowSink

    /** The constructor: with a header required, the header row is written first. */
    constructor (config: CsvConfig, writer: RowSink)
      modifies writer
      ensures this.config == config && this.writer == writer && properties == Properties(config)
      ensures writer.rows == old(writer.rows) + (if config.requiredHeader then [HeaderRow(config)] else [])
    {
      this.config := config;
      this.properties := Properties(config);
      this.writer := writer;
      new;
      WriteHeader();
    }

    /** writeHeader: the header titles as one row, only when a header is required. */
    method WriteHeader()
      modifies writer
      ensures writer.rows == old(writer.rows) + (if config.requiredHeader then [HeaderRow(config)] else [])
    {
      if !config.requiredHeader {
        return;
      }
      writer.Write(HeaderRow(config));
    }

    /** convertValues: the map's value for each key, null for a key the map lacks. */
    method ConvertValues(m: map<string, Option<string>>) returns (fieldValues: Row)
      ensures fieldValues == ValuesOf(properties, m)
    {
      var keys := properties;
      var values := new Option<string>[|keys|](_ => None);
      for i := 0 to |keys|
        invariant forall j :: 0 <= j < i ==> values[j] == Get(m, keys[j])
      {
        values[i] := Get(m, keys[i]);
      }
      fieldValues := values[..];
    }

    /** write: exactly one row, the converted values, to the writer. */
    method Write(m: map<string, Option<string>>)
      modifies writer
      ensures writer.rows == old(writer.rows) + [ValuesOf(properties, m)]
    {
      var row := ConvertValues(m);
      writer.Write(row);
    }

    /** read: not supported by a writing mapper. */
    method Read() returns (err: Error)
      ensures err == UnsupportedRead
    {
      err := UnsupportedRead;
    }
  }

  // ---------------------------------------------------------------------
  // Writing and reading maps agree
  // ---------------------------------------------------------------------

  /** Map entries under keys outside the key list do not change the row written. */
  lemma ValuesIgnoreOtherKeys(keys: seq<string>, a: map<string, Option<string>>, b: map<string, Option<string>>)
    requires forall k :: k in keys ==> Get(a, k) == Get(b, k)
    ensures ValuesOf(keys, a) == ValuesOf(keys, b)
  {
  }

  /** Binding the row written for a map gives back the map, when the map has exactly the (distinct) keys. */
  lemma {:induction false} WriteThenBind(keys: seq<string>, m: map<string, Option<string>>)
    requires Distinct(keys) && m.Keys == set k | k in keys
    ensures ZipMap(keys, ValuesOf(keys, m)) == m
  {
    var row := ValuesOf(keys, m);
    var bound := ZipMap(keys, row);
    forall k | k in bound
      ensures bound[k] == m[k]
    {
      var i :| 0 <= i < |keys| && keys[i] == k;
      ZipMapValue(keys, row, i);
    }
  }

  /** Writing the map bound from a row gives back the row, when the keys are distinct. */
  lemma BindThenWrite(keys: seq<string>, record: Row)
    requires |keys| == |record| && Distinct(keys)
    ensures ValuesOf(keys, ZipMap(keys, record)) == record
  {
    ZipMapValues(keys, record);
  }
}
