/**
 * The builders of a fixed-length configuration: FixedLengthDataBindConfigBuilder
 * collects the file-wide settings and hands them to a SingleLayoutBuilder or a
 * MultiLayoutBuilder, which collect field definitions and build the
 * configuration; RecordBuilder collects the fields of one record.
 *
 * Building adds the filler fields to the builder's own lists (as the
 * library does: the lists are sorted and extended in place) and then runs
 * the checks of the layout support, with the record check as the library
 * writes it (`SumOfLengths`). What the corrected check (`PastField`) would
 * give, a record covered by its fields exactly once, is proved of the
 * layouts that check accepts; those the builders accept too.
 */
module Builders {
  import opened Results
  import opened Charsets
  import opened Config
  import opened Layout

  /**
   * The configuration a single-layout builder produces from its fields:
   * one record named "single" holding the fields with their fillers, or the
   * first error the checks report.
   */
  function BuildSingle(length: int, charset: Charset, lineSeparator: Option<string>, fillChar: char,
                       fields: seq<FieldConfig>): (r: Result<FixedLengthConfig>)
    ensures length <= 0 ==> r == Err(LengthInvalid)
    ensures r.Ok? ==> r.value == FixedLengthConfig(length, charset, lineSeparator, fillChar,
                                                   map[SINGLE_LAYOUT_RECORD_NAME := WithFillers(fields, length)], None)
    ensures r.Ok? ==> !r.value.IsMultiLayout() && r.value.records.Keys == {SINGLE_LAYOUT_RECORD_NAME}
    ensures r.Ok? ==> SortedByOffset(r.value.records[SINGLE_LAYOUT_RECORD_NAME])
  {
    var list := WithFillers(fields, length);
    if length <= 0 then Err(LengthInvalid)
    else match RecordError(SumOfLengths, SINGLE_LAYOUT_RECORD_NAME, list, length)
      case Some(e) => Err(e)
      case None => Ok(FixedLengthConfig(length, charset, lineSeparator, fillChar, map[SINGLE_LAYOUT_RECORD_NAME := list], None))
  }

  /**
   * A single layout builds exactly when the length is positive and the
   * declared fields, in offset order, each start at or after 1 plus the
   * lengths of the declared fields before them, and the last ends within
   * the record; the record then holds every declared field.
   */
  lemma SingleLayoutAccepted(length: int, charset: Charset, lineSeparator: Option<string>, fillChar: char,
                             fields: seq<FieldConfig>)
    ensures var r := BuildSingle(length, charset, lineSeparator, fillChar, fields);
      var d := SortByOffset(Declared(fields));
      (r.Ok? <==> length > 0 && d != [] && AfterEarlierLengths(d, 1) && LastWithin(d[|d| - 1], length))
      && (r.Ok? ==> Declared(r.value.records[SINGLE_LAYOUT_RECORD_NAME]) == d)
  {
    var list := WithFillers(fields, length);
    CheckAfterFillers(SumOfLengths, SINGLE_LAYOUT_RECORD_NAME, fields, length);
    SortDeclared(fields);
    RecordAcceptedAsWritten(SINGLE_LAYOUT_RECORD_NAME, list, length);
    WithFillersKeepsDeclared(fields, length);
  }

  /**
   * The overlapping layout a at 1 (1 byte), b at 10 (15 bytes), c at 17
   * (1 byte) in a 17-byte record builds.
   */
  lemma SingleLayoutBuildsOverlap(charset: Charset, lineSeparator: Option<string>, fillChar: char)
    ensures var a, b, c := FieldConfig("a", 1, 1, Default), FieldConfig("b", 10, 15, Default), FieldConfig("c", 17, 1, Default);
      BuildSingle(17, charset, lineSeparator, fillChar, [a, b, c]).Ok?
  {
    OverlapBuiltAsWritten();
  }

  /**
   * A single layout whose fields pass the corrected record check builds,
   * and covers every byte of the record exactly once, when every declared
   * field is at least one byte long and none is named "filler".
   */
  lemma SingleLayoutTiles(length: int, charset: Charset, lineSeparator: Option<string>, fillChar: char,
                          fields: seq<FieldConfig>)
    requires forall i :: 0 <= i < |fields| ==> fields[i].name != FILLER_FIELD_NAME && fields[i].length > 0
    requires RecordError(PastField, SINGLE_LAYOUT_RECORD_NAME, WithFillers(fields, length), length) == None
    ensures var r := BuildSingle(length, charset, lineSeparator, fillChar, fields);
      r.Ok? && Tiles(r.value.records[SINGLE_LAYOUT_RECORD_NAME], 1, length + 1)
  {
    var list := WithFillers(fields, length);
    WithFillersTiles(SINGLE_LAYOUT_RECORD_NAME, fields, length);
    assert length > 0 by {
      RecordErrorNotFound(PastField, SINGLE_LAYOUT_RECORD_NAME, list, length);
      TilesBoundsAt(list, 1, length + 1, 0);
    }
    IntendedStricter(SINGLE_LAYOUT_RECORD_NAME, list, length);
  }

  /** SingleLayoutBuilder: the file settings and the fields declared so far. */
  class SingleLayoutBuilder {
    const length: int
    const charset: Charset
    const lineSeparator: Option<string>
    const fillChar: char
    var fieldConfigList: seq<FieldConfig>

    constructor (length: int, charset: Charset, lineSeparator: Option<string>, fillChar: char)
      ensures this.length == length && this.charset == charset
      ensures this.lineSeparator == lineSeparator && this.fillChar == fillChar
      ensures fieldConfigList == []
    {
      this.length := length;
      this.charset := charset;
      this.lineSeparator := lineSeparator;
      this.fillChar := fillChar;
      fieldConfigList := [];
    }

    /** field(name, offset, length): a field with a DefaultConverter. */
    method Field(name: string, offset: int, len: int)
      modifies this
      ensures fieldConfigList == old(fieldConfigList) + [FieldConfig(name, offset, len, Default)]
    {
      FieldWith(name, offset, len, Default);
    }

    /** field(name, offset, length, converter). */
    method FieldWith(name: string, offset: int, len: int, converter: Converter)
      modifies this
      ensures fieldConfigList == old(fieldConfigList) + [FieldConfig(name, offset, len, converter)]
    {
      fieldConfigList := fieldConfigList + [FieldConfig(name, offset, len, converter)];
    }

    /** build(): adds the fillers to the list, then checks the length and the record. */
    method Build() returns (r: Result<FixedLengthConfig>)
      modifies this
      ensures fieldConfigList == WithFillers(old(fieldConfigList), length)
      ensures r == BuildSingle(length, charset, lineSeparator, fillChar, old(fieldConfigList))
    {
      fieldConfigList := AddFillerFieldConfig(fieldConfigList, length);
      var recordConfigMap := map[SINGLE_LAYOUT_RECORD_NAME := fieldConfigList];
      var e := VerifyFile(length);
      if e.Some? {
        return Err(e.value);
      }
      e := VerifyRecordConfig(SumOfLengths, recordConfigMap, length);
      assert SINGLE_LAYOUT_RECORD_NAME in recordConfigMap;
      if e.Some? {
        return Err(e.value);
      }
      return Ok(FixedLengthConfig(length, charset, lineSeparator, fillChar, recordConfigMap, None));
    }
  }

  /** Every record's field list with its fillers. */
  function AllWithFillers(m: map<string, seq<FieldConfig>>, length: int): (r: map<string, seq<FieldConfig>>)
    ensures r.Keys == m.Keys
    ensures forall k :: k in r ==> SortedByOffset(r[k])
  {
    map k | k in m :: WithFillers(m[k], length)
  }

  /** The loop of MultiLayoutBuilder.build that adds the fillers to every record, in no particular order. */
  method AddFillersToRecords(fieldConfigMap: map<string, seq<FieldConfig>>, length: int)
    returns (recordConfigMap: map<string, seq<FieldConfig>>)
    ensures recordConfigMap == AllWithFillers(fieldConfigMap, length)
  {
    recordConfigMap := map[];
    var remaining := fieldConfigMap.Keys;
    while remaining != {}
      invariant remaining <= fieldConfigMap.Keys
      invariant forall k :: k in recordConfigMap <==> k in fieldConfigMap && k !in remaining
      invariant forall k :: k in recordConfigMap ==> recordConfigMap[k] == WithFillers(fieldConfigMap[k], length)
      decreases |remaining|
    {
      var k :| k in remaining;
      var list := AddFillerFieldConfig(fieldConfigMap[k], length);
      recordConfigMap := recordConfigMap[k := list];
      remaining := remaining - {k};
    }
    AllWithFillersFrom(fieldConfigMap, recordConfigMap, length);
  }

  lemma AllWithFillersFrom(m: map<string, seq<FieldConfig>>, r: map<string, seq<FieldConfig>>, length: int)
    requires forall k :: k in r <==> k in m
    requires forall k :: k in r ==> r[k] == WithFillers(m[k], length)
    ensures r == AllWithFillers(m, length)
  {
    var a := AllWithFillers(m, length);
    forall k | k in r
      ensures r[k] == a[k]
    {
    }
    SameEntries(r, a);
  }

  /** Two maps with the same keys and the same value at every key are equal. */
  lemma SameEntries(r: map<string, seq<FieldConfig>>, a: map<string, seq<FieldConfig>>)
    requires r.Keys == a.Keys
    requires forall k :: k in r ==> r[k] == a[k]
    ensures r == a
  {
  }

  /** Whether every record of a multi layout passes the record check, as written or corrected. */
  predicate AllRecordsValid(advance: Advance, records: map<string, seq<FieldConfig>>, length: int)
  {
    forall k :: k in records ==> RecordError(advance, k, records[k], length).None?
  }

  /**
   * A multi layout whose records pass the corrected record check passes the
   * check as written too, and covers every byte of every record exactly
   * once, when every declared field is at least one byte long and none is
   * named "filler".
   */
  lemma MultiLayoutTiles(m: map<string, seq<FieldConfig>>, length: int)
    requires forall k, i :: k in m && 0 <= i < |m[k]| ==> m[k][i].name != FILLER_FIELD_NAME && m[k][i].length > 0
    requires AllRecordsValid(PastField, AllWithFillers(m, length), length)
    ensures AllRecordsValid(SumOfLengths, AllWithFillers(m, length), length)
    ensures forall k :: k in m ==> Tiles(AllWithFillers(m, length)[k], 1, length + 1)
  {
    var all := AllWithFillers(m, length);
    forall k | k in m
      ensures Tiles(all[k], 1, length + 1)
      ensures RecordError(SumOfLengths, k, all[k], length).None?
    {
      WithFillersTiles(k, m[k], length);
      IntendedStricter(k, all[k], length);
    }
  }

  /** MultiLayoutBuilder: the file settings, the record identifier, the fields of every record, and the record being declared. */
  class MultiLayoutBuilder {
    const length: int
    const charset: Charset
    const lineSeparator: Option<string>
    const fillChar: char
    var recordIdentifier: Option<RecordIdentifier>
    var fieldConfigMap: map<string, seq<FieldConfig>>
    var recordName: Option<string>

    /** The record being declared has a list. */
    ghost predicate Valid()
      reads this
    {
      recordName.Some? ==> recordName.value in fieldConfigMap
    }

    constructor (length: int, charset: Charset, lineSeparator: Option<string>, fillChar: char)
      ensures Valid()
      ensures this.length == length && this.charset == charset
      ensures this.lineSeparator == lineSeparator && this.fillChar == fillChar
      ensures recordIdentifier == None && fieldConfigMap == map[] && recordName == None
    {
      this.length := length;
      this.charset := charset;
      this.lineSeparator := lineSeparator;
      this.fillChar := fillChar;
      recordIdentifier := None;
      fieldConfigMap := map[];
      recordName := None;
    }

    /** field(name, offset, length): a field with a DefaultConverter. */
    method Field(name: string, offset: int, len: int) returns (err: Option<Error>)
      requires Valid()
      modifies this
      ensures Valid()
      ensures err.Some? <==> recordName.None?
      ensures err.Some? ==> err.value == RecordNotSelected && fieldConfigMap == old(fieldConfigMap)
      ensures err.None? ==> (recordName.value in old(fieldConfigMap) && fieldConfigMap
        == old(fieldConfigMap)[recordName.value := old(fieldConfigMap)[recordName.value] + [FieldConfig(name, offset, len, Default)]])
      ensures recordName == old(recordName) && recordIdentifier == old(recordIdentifier)
    {
      err := FieldWith(name, offset, len, Default);
    }

    /** field(name, offset, length, converter): appends to the record last named by record(). */
    method FieldWith(name: string, offset: int, len: int, converter: Converter) returns (err: Option<Error>)
      requires Valid()
      modifies this
      ensures Valid()
      ensures err.Some? <==> recordName.None?
      ensures err.Some? ==> err.value == RecordNotSelected && fieldConfigMap == old(fieldConfigMap)
      ensures err.None? ==> (recordName.value in old(fieldConfigMap) && fieldConfigMap
        == old(fieldConfigMap)[recordName.value := old(fieldConfigMap)[recordName.value] + [FieldConfig(name, offset, len, converter)]])
      ensures recordName == old(recordName) && recordIdentifier == old(recordIdentifier)
    {
      if recordName.None? {
        return Some(RecordNotSelected);
      }
      var current := recordName.value;
      fieldConfigMap := fieldConfigMap[current := fieldConfigMap[current] + [FieldConfig(name, offset, len, converter)]];
      return None;
    }

    /** record(name): starts the record `name` with no field, replacing any earlier record of that name. */
    method Record(name: string)
      modifies this
      ensures Valid()
      ensures fieldConfigMap == old(fieldConfigMap)[name := []] && recordName == Some(name)
      ensures recordIdentifier == old(recordIdentifier)
    {
      fieldConfigMap := fieldConfigMap[name := []];
      recordName := Some(name);
    }

    /** recordIdentifier(identifier). */
    method SetRecordIdentifier(identifier: RecordIdentifier)
      modifies this
      ensures recordIdentifier == Some(identifier)
      ensures fieldConfigMap == old(fieldConfigMap) && recordName == old(recordName)
    {
      recordIdentifier := Some(identifier);
    }

    /**
     * build(): fails without a record identifier; otherwise adds the
     * fillers to every record's list, then checks the length and every
     * record (in no particular order).
     */
    method Build() returns (r: Result<FixedLengthConfig>)
      modifies this
      ensures recordIdentifier.None? ==> r == Err(RecordIdentifierUndefined) && fieldConfigMap == old(fieldConfigMap)
      ensures recordIdentifier.Some? ==> fieldConfigMap == AllWithFillers(old(fieldConfigMap), length)
      ensures recordIdentifier.Some? && length <= 0 ==> r == Err(LengthInvalid)
      ensures r.Ok? <==> recordIdentifier.Some? && length > 0 && AllRecordsValid(SumOfLengths, fieldConfigMap, length)
      ensures r.Ok? ==> r.value == FixedLengthConfig(length, charset, lineSeparator, fillChar, fieldConfigMap, recordIdentifier)
      ensures r.Err? && recordIdentifier.Some? && length > 0 ==>
        exists k :: k in fieldConfigMap && RecordError(SumOfLengths, k, fieldConfigMap[k], length) == Some(r.error)
      ensures recordIdentifier == old(recordIdentifier) && recordName == old(recordName)
    {
      if recordIdentifier.None? {
        return Err(RecordIdentifierUndefined);
      }
      var recordConfigMap := AddFillersToRecords(fieldConfigMap, length);
      fieldConfigMap := recordConfigMap;
      var e := VerifyFile(length);
      if e.Some? {
        return Err(e.value);
      }
      e := VerifyRecordConfig(SumOfLengths, recordConfigMap, length);
      if e.Some? {
        return Err(e.value);
      }
      return Ok(FixedLengthConfig(length, charset, lineSeparator, fillChar, recordConfigMap, recordIdentifier));
    }
  }

  /** RecordBuilder: the fields of one record. */
  class RecordBuilder {
    var fieldConfigList: seq<FieldConfig>

    constructor ()
      ensures fieldConfigList == []
    {
      fieldConfigList := [];
    }

    /** addField(name, offset, length): a field with a DefaultConverter. */
    method AddField(name: string, offset: int, length: int)
      modifies this
      ensures fieldConfigList == old(fieldConfigList) + [FieldConfig(name, offset, length, Default)]
    {
      AddFieldWith(name, offset, length, Default);
    }

    /** addField(name, offset, length, converter). */
    method AddFieldWith(name: string, offset: int, length: int, converter: Converter)
      modifies this
      ensures fieldConfigList == old(fieldConfigList) + [FieldConfig(name, offset, length, converter)]
    {
      fieldConfigList := fieldConfigList + [FieldConfig(name, offset, length, converter)];
    }

    /** build(): sorts the list in place by offset, keeping the order of fields at one offset, and returns it. */
    method Build() returns (r: seq<FieldConfig>)
      modifies this
      ensures r == SortByOffset(old(fieldConfigList)) && fieldConfigList == r
    {
      fieldConfigList := SortByOffset(fieldConfigList);
      r := fieldConfigList;
    }
  }

  /** FixedLengthDataBindConfigBuilder: the file-wide settings. */
  class FixedLengthDataBindConfigBuilder {
    var length: int
    var charset: Charset
    var lineSeparator: Option<string>
    var fillChar: char

    /** newBuilder(): length 0, no line separator, fill char ' '. */
    constructor ()
      ensures length == 0 && charset == Latin1 && lineSeparator == None && fillChar == ' '
    {
      length := 0;
      charset := Latin1;
      lineSeparator := None;
      fillChar := ' ';
    }

    method Length(length: int) returns (b: FixedLengthDataBindConfigBuilder)
      modifies this
      ensures b == this
      ensures this.length == length
      ensures charset == old(charset) && lineSeparator == old(lineSeparator) && fillChar == old(fillChar)
    {
      this.length := length;
      b := this;
    }

    method SetCharset(charset: Charset) returns (b: FixedLengthDataBindConfigBuilder)
      modifies this
      ensures b == this
      ensures this.charset == charset
      ensures length == old(length) && lineSeparator == old(lineSeparator) && fillChar == old(fillChar)
    {
      this.charset := charset;
      b := this;
    }

    method LineSeparator(lineSeparator: Option<string>) returns (b: FixedLengthDataBindConfigBuilder)
      modifies this
      ensures b == this
      ensures this.lineSeparator == lineSeparator
      ensures length == old(length) && charset == old(charset) && fillChar == old(fillChar)
    {
      this.lineSeparator := lineSeparator;
      b := this;
    }

    method FillChar(fillChar: char) returns (b: FixedLengthDataBindConfigBuilder)
      modifies this
      ensures b == this
      ensures this.fillChar == fillChar
      ensures length == old(length) && charset == old(charset) && lineSeparator == old(lineSeparator)
    {
      this.fillChar := fillChar;
      b := this;
    }

    /** singleLayout(): a fresh single-layout builder with these settings. */
    method SingleLayout() returns (b: SingleLayoutBuilder)
      ensures fresh(b)
      ensures b.length == length && b.charset == charset && b.lineSeparator == lineSeparator && b.fillChar == fillChar
      ensures b.fieldConfigList == []
    {
      b := new SingleLayoutBuilder(length, charset, lineSeparator, fillChar);
    }

    /** multiLayout(): a fresh multi-layout builder with these settings. */
    method MultiLayout() returns (b: MultiLayoutBuilder)
      ensures fresh(b) && b.Valid()
      ensures b.length == length && b.charset == charset && b.lineSeparator == lineSeparator && b.fillChar == fillChar
      ensures b.recordIdentifier == None && b.fieldConfigMap == map[] && b.recordName == None
    {
      b := new MultiLayoutBuilder(length, charset, lineSeparator, fillChar);
    }
  }
}
