/**
 * LayoutBuilderSupport: what every layout builder does before it hands out
 * a configuration. The declared fields of a record are sorted by offset,
 * every gap between them and the space after the last one get a synthetic
 * "filler" field (addFillerFieldConfig), the record length must be
 * positive (verifyFile) and the declared fields must fit the record
 * (verifyRecordConfig).
 *
 * verifyRecordConfig, as written, advances the offset it expects by the
 * length of each declared field; the check that the library evidently
 * intends advances it to the end of the field just seen. Both are modelled
 * through one scan parameterised by `Advance`: the builders use the check
 * as written (`SumOfLengths`); the corrected check (`PastField`) is used
 * only by the lemmas about what a layout passing it gives (the tiling).
 */
module Layout {
  import opened Results
  import opened Config

  /** One past the last byte of a field. */
  function End(f: FieldConfig): int
  {
    f.offset + f.length
  }

  /** The sum of the lengths of a list of fields. */
  function SumLengths(s: seq<FieldConfig>): int
  {
    if s == [] then 0 else s[0].length + SumLengths(s[1..])
  }

  // ---------------------------------------------------------------------
  // addFillerFieldConfig
  // ---------------------------------------------------------------------

  /** A synthetic field covering `size` bytes from `position`; it carries a DefaultConverter. */
  function FillerField(position: int, size: int): FieldConfig
  {
    FieldConfig(FILLER_FIELD_NAME, position, size, Default)
  }

  /** The filler for the gap between `position` and a field at `offset`, if there is a gap. */
  function GapFiller(position: int, offset: int): seq<FieldConfig>
  {
    if offset - position > 0 then [FillerField(position, offset - position)] else []
  }

  /** The filler from `position` to the end of a record of `length` bytes, if any room is left. */
  function TailFiller(position: int, length: int): seq<FieldConfig>
  {
    if (length + 1) - position > 0 then [FillerField(position, (length + 1) - position)] else []
  }

  /** The gap fillers of a list walked from `position`, in list order. */
  function GapFillers(s: seq<FieldConfig>, position: int): (r: seq<FieldConfig>)
    ensures forall i :: 0 <= i < |r| ==> r[i].name == FILLER_FIELD_NAME && r[i].length > 0
  {
    if s == [] then [] else GapFiller(position, s[0].offset) + GapFillers(s[1..], End(s[0]))
  }

  /** The position the walk ends at: the end of the last field, or `position` for no field. */
  function PositionAfter(s: seq<FieldConfig>, position: int): int
  {
    if s == [] then position else PositionAfter(s[1..], End(s[0]))
  }

  /** Every filler addFillerFieldConfig adds to a sorted list. */
  function Fillers(sorted: seq<FieldConfig>, length: int): (r: seq<FieldConfig>)
    ensures forall i :: 0 <= i < |r| ==> r[i].name == FILLER_FIELD_NAME && r[i].length > 0
  {
    GapFillers(sorted, 1) + TailFiller(PositionAfter(sorted, 1), length)
  }

  /**
   * The list addFillerFieldConfig leaves behind: the fields and their
   * fillers, ordered by offset, with nothing removed.
   */
  function WithFillers(fields: seq<FieldConfig>, length: int): (r: seq<FieldConfig>)
    ensures SortedByOffset(r)
    ensures multiset(r) == multiset(fields) + multiset(Fillers(SortByOffset(fields), length))
  {
    var sorted := SortByOffset(fields);
    SortByOffset(sorted + Fillers(sorted, length))
  }

  /** addFillerFieldConfig: sort, walk the fields collecting fillers, append them, sort again. */
  method AddFillerFieldConfig(fieldConfigList: seq<FieldConfig>, length: int) returns (r: seq<FieldConfig>)
    ensures r == WithFillers(fieldConfigList, length)
  {
    var sorted := SortByOffset(fieldConfigList);
    var fillers: seq<FieldConfig> := [];
    var position := 1;
    for i := 0 to |sorted|
      invariant fillers == GapFillers(sorted[..i], 1)
      invariant position == PositionAfter(sorted[..i], 1)
    {
      var fieldConfig := sorted[i];
      WalkStep(sorted, i);
      var fillSize := fieldConfig.offset - position;
      if fillSize > 0 {
        fillers := fillers + [FillerField(position, fillSize)];
      }
      position := fieldConfig.offset + fieldConfig.length;
    }
    assert sorted[..|sorted|] == sorted;
    var fillSize := (length + 1) - position;
    if fillSize > 0 {
      fillers := fillers + [FillerField(position, fillSize)];
    }
    assert fillers == Fillers(sorted, length);
    r := SortByOffset(sorted + fillers);
  }

  /** One step of the walk of addFillerFieldConfig: the gap before the next field, then past it. */
  lemma WalkStep(s: seq<FieldConfig>, i: int)
    requires 0 <= i < |s|
    ensures GapFillers(s[..i + 1], 1) == GapFillers(s[..i], 1) + GapFiller(PositionAfter(s[..i], 1), s[i].offset)
    ensures PositionAfter(s[..i + 1], 1) == End(s[i])
  {
    assert s[..i + 1] == s[..i] + [s[i]];
    GapFillersAppend(s[..i], [s[i]], 1);
    PositionAfterAppend(s[..i], [s[i]], 1);
    assert [s[i]][1..] == [];
  }

  /** The walk ends at the end of the last field. */
  lemma {:induction false} PositionAfterLast(s: seq<FieldConfig>, position: int)
    requires s != []
    ensures PositionAfter(s, position) == End(s[|s| - 1])
  {
    if |s| > 1 {
      PositionAfterLast(s[1..], End(s[0]));
    }
  }

  /**
   * The tail filler: when the last field of a sorted list ends before the
   * record does, the last filler added starts where that field ends and
   * runs to the end of the record; otherwise no filler follows it.
   */
  lemma TailFillerAfterLast(sorted: seq<FieldConfig>, length: int)
    requires sorted != []
    ensures var end := End(sorted[|sorted| - 1]);
      var f := Fillers(sorted, length);
      if end <= length then f != [] && f[|f| - 1] == FillerField(end, length + 1 - end)
      else f == GapFillers(sorted, 1)
  {
    PositionAfterLast(sorted, 1);
  }

  lemma {:induction false} GapFillersAppend(s: seq<FieldConfig>, t: seq<FieldConfig>, position: int)
    ensures GapFillers(s + t, position) == GapFillers(s, position) + GapFillers(t, PositionAfter(s, position))
  {
    if s == [] {
      assert s + t == t;
    } else {
      assert (s + t)[0] == s[0] && (s + t)[1..] == s[1..] + t;
      GapFillersAppend(s[1..], t, End(s[0]));
    }
  }

  lemma {:induction false} PositionAfterAppend(s: seq<FieldConfig>, t: seq<FieldConfig>, position: int)
    ensures PositionAfter(s + t, position) == PositionAfter(t, PositionAfter(s, position))
  {
    if s == [] {
      assert s + t == t;
    } else {
      assert (s + t)[0] == s[0] && (s + t)[1..] == s[1..] + t;
      PositionAfterAppend(s[1..], t, End(s[0]));
    }
  }

  /** The fields not named "filler" come out of addFillerFieldConfig sorted and otherwise unchanged. */
  lemma WithFillersKeepsDeclared(fields: seq<FieldConfig>, length: int)
    ensures Declared(WithFillers(fields, length)) == SortByOffset(Declared(fields))
  {
    var sorted := SortByOffset(fields);
    var fillers := Fillers(sorted, length);
    SortDeclared(sorted + fillers);
    DeclaredAppend(sorted, fillers);
    DeclaredOfFillersOnly(fillers);
    assert Declared(sorted + fillers) == Declared(sorted);
    SortDeclared(fields);
    SortOfSorted(Declared(sorted));
  }

  // ---------------------------------------------------------------------
  // verifyFile and verifyRecordConfig
  // ---------------------------------------------------------------------

  /** verifyFile: the record length must be positive. */
  function VerifyFile(length: int): (r: Option<Error>)
    ensures r.None? <==> length > 0
    ensures r.Some? ==> r.value == LengthInvalid
  {
    if length <= 0 then Some(LengthInvalid) else None
  }

  /**
   * How the offset the next declared field may start at advances:
   * `SumOfLengths` is the code as written (by the length of the field just
   * seen), `PastField` the intended check (to the end of that field).
   */
  datatype Advance = SumOfLengths | PastField

  function NextExpected(advance: Advance, expectedOffset: int, f: FieldConfig): int
  {
    match advance
    case SumOfLengths => expectedOffset + f.length
    case PastField => End(f)
  }

  /** Whether a field ends within a record of `length` bytes. */
  predicate LastWithin(f: FieldConfig, length: int)
  {
    f.offset + f.length - 1 <= length
  }

  /**
   * The inner loop of verifyRecordConfig from `fields` on, with the offset
   * expected next and the last declared field seen so far. The error, if
   * any, names the record.
   */
  function ScanFields(advance: Advance, recordName: string, fields: seq<FieldConfig>,
                      expectedOffset: int, lastField: Option<FieldConfig>, length: int): (r: Option<Error>)
    ensures r.Some? ==> (r.value.FieldOffsetInvalid? || r.value.FieldNotFound? || r.value.FieldLengthInvalid?)
    ensures r.Some? ==> r.value.recordName == recordName
    decreases |fields|
  {
    if fields == [] then
      match lastField
      case None => Some(FieldNotFound(recordName))
      case Some(last) =>
        if length < last.offset + last.length - 1 then
          Some(FieldLengthInvalid(recordName, last.name, length - last.offset + 1, last.length))
        else None
    else if fields[0].name == FILLER_FIELD_NAME then
      ScanFields(advance, recordName, fields[1..], expectedOffset, lastField, length)
    else if expectedOffset > fields[0].offset then
      Some(FieldOffsetInvalid(recordName, fields[0].name, expectedOffset, fields[0].offset))
    else
      ScanFields(advance, recordName, fields[1..], NextExpected(advance, expectedOffset, fields[0]), Some(fields[0]), length)
  }

  /** The error verifyRecordConfig reports for one record, or None when the record passes. */
  function RecordError(advance: Advance, recordName: string, fields: seq<FieldConfig>, length: int): Option<Error>
  {
    ScanFields(advance, recordName, fields, 1, None, length)
  }

  /** The check of one record's field list, as the loop of verifyRecordConfig does it. */
  method VerifyFieldList(advance: Advance, recordName: string, fieldConfigList: seq<FieldConfig>, length: int)
    returns (r: Option<Error>)
    ensures r == RecordError(advance, recordName, fieldConfigList, length)
  {
    var expectedOffset := 1;
    var lastField: Option<FieldConfig> := None;
    for i := 0 to |fieldConfigList|
      invariant ScanFields(advance, recordName, fieldConfigList[i..], expectedOffset, lastField, length)
        == RecordError(advance, recordName, fieldConfigList, length)
    {
      var fieldConfig := fieldConfigList[i];
      assert fieldConfigList[i..][1..] == fieldConfigList[i + 1..];
      if fieldConfig.name == FILLER_FIELD_NAME {
        continue;
      }
      if expectedOffset > fieldConfig.offset {
        return Some(FieldOffsetInvalid(recordName, fieldConfig.name, expectedOffset, fieldConfig.offset));
      }
      expectedOffset := NextExpected(advance, expectedOffset, fieldConfig);
      lastField := Some(fieldConfig);
    }
    assert fieldConfigList[|fieldConfigList|..] == [];
    if lastField.None? {
      return Some(FieldNotFound(recordName));
    }
    var last := lastField.value;
    if length < last.offset + last.length - 1 {
      return Some(FieldLengthInvalid(recordName, last.name, length - last.offset + 1, last.length));
    }
    return None;
  }

  /**
   * verifyRecordConfig over every record of a map. The records are visited
   * in no particular order (a HashMap's), so when several records are
   * invalid the error is that of any one of them.
   */
  method VerifyRecordConfig(advance: Advance, recordConfigMap: map<string, seq<FieldConfig>>, length: int)
    returns (r: Option<Error>)
    ensures r.None? <==> forall name :: name in recordConfigMap ==> RecordError(advance, name, recordConfigMap[name], length).None?
    ensures r.Some? ==> exists name :: name in recordConfigMap && RecordError(advance, name, recordConfigMap[name], length) == r
  {
    var remaining := recordConfigMap.Keys;
    while remaining != {}
      invariant remaining <= recordConfigMap.Keys
      invariant forall name :: name in recordConfigMap && name !in remaining ==>
        RecordError(advance, name, recordConfigMap[name], length).None?
      decreases |remaining|
    {
      var recordName :| recordName in remaining;
      var e := VerifyFieldList(advance, recordName, recordConfigMap[recordName], length);
      if e.Some? {
        return e;
      }
      remaining := remaining - {recordName};
    }
    return None;
  }

  // ---------------------------------------------------------------------
  // What the record check accepts
  // ---------------------------------------------------------------------

  /** The first field starts at or after `start`, every other one at or after the end of the one before it. */
  predicate NonOverlapping(d: seq<FieldConfig>, start: int)
  {
    (d != [] ==> d[0].offset >= start)
    && forall i :: 0 < i < |d| ==> d[i].offset >= End(d[i - 1])
  }

  /** Each field starts at or after `start` plus the lengths of the fields before it. */
  predicate AfterEarlierLengths(d: seq<FieldConfig>, start: int)
  {
    forall i :: 0 <= i < |d| ==> d[i].offset >= start + SumLengths(d[..i])
  }

  lemma NonOverlappingCons(x: FieldConfig, d: seq<FieldConfig>, start: int)
    ensures NonOverlapping([x] + d, start) <==> x.offset >= start && NonOverlapping(d, End(x))
  {
    var s := [x] + d;
    if x.offset >= start && NonOverlapping(d, End(x)) {
      forall i | 0 < i < |s|
        ensures s[i].offset >= End(s[i - 1])
      {
        assert s[i] == d[i - 1];
        if i > 1 {
          assert s[i - 1] == d[i - 2];
        }
      }
    }
    if NonOverlapping(s, start) {
      forall i | 0 < i < |d|
        ensures d[i].offset >= End(d[i - 1])
      {
        assert d[i] == s[i + 1] && d[i - 1] == s[i];
      }
      if d != [] {
        assert d[0] == s[1];
      }
    }
  }

  lemma AfterEarlierLengthsCons(x: FieldConfig, d: seq<FieldConfig>, start: int)
    ensures AfterEarlierLengths([x] + d, start) <==> x.offset >= start && AfterEarlierLengths(d, start + x.length)
  {
    var s := [x] + d;
    forall i | 0 <= i < |d|
      ensures s[i + 1] == d[i] && SumLengths(s[..i + 1]) == x.length + SumLengths(d[..i])
    {
      assert s[..i + 1][1..] == d[..i];
    }
    assert s[..0] == [];
    if AfterEarlierLengths(s, start) {
      forall i | 0 <= i < |d|
        ensures d[i].offset >= start + x.length + SumLengths(d[..i])
      {
        assert s[i + 1].offset >= start + SumLengths(s[..i + 1]);
      }
    }
    if x.offset >= start && AfterEarlierLengths(d, start + x.length) {
      forall i | 0 <= i < |s|
        ensures s[i].offset >= start + SumLengths(s[..i])
      {
        if i > 0 {
          assert s[i].offset == d[i - 1].offset;
        }
      }
    }
  }

  /**
   * What the scan from a state accepts, given the declared fields still to
   * come: with none left, the last field seen ends within the record;
   * otherwise they satisfy `order` from `e` and the last ends within it.
   */
  predicate Accepts(advance: Advance, d: seq<FieldConfig>, e: int, last: Option<FieldConfig>, length: int)
  {
    if d == [] then last.Some? && LastWithin(last.value, length)
    else
      (match advance
       case PastField => NonOverlapping(d, e)
       case SumOfLengths => AfterEarlierLengths(d, e))
      && LastWithin(d[|d| - 1], length)
  }

  /** One declared field more in front: it must start at or after `e`, and the rest is scanned from the next expected offset. */
  lemma AcceptsCons(advance: Advance, x: FieldConfig, d: seq<FieldConfig>, e: int, last: Option<FieldConfig>, length: int)
    ensures Accepts(advance, [x] + d, e, last, length)
      <==> x.offset >= e && Accepts(advance, d, NextExpected(advance, e, x), Some(x), length)
  {
    if d != [] {
      assert ([x] + d)[|d|] == d[|d| - 1];
    }
    match advance
    case PastField => NonOverlappingCons(x, d, e);
    case SumOfLengths => AfterEarlierLengthsCons(x, d, e);
  }

  /** The scan from a state passes exactly when the declared fields left satisfy `Accepts`. */
  lemma {:induction false} ScanAccepts(advance: Advance, name: string, xs: seq<FieldConfig>, e: int, last: Option<FieldConfig>, length: int)
    ensures ScanFields(advance, name, xs, e, last, length).None? <==> Accepts(advance, Declared(xs), e, last, length)
  {
    if xs != [] {
      var x := xs[0];
      if x.name == FILLER_FIELD_NAME {
        ScanAccepts(advance, name, xs[1..], e, last, length);
      } else {
        var d' := Declared(xs[1..]);
        assert Declared(xs) == [x] + d';
        AcceptsCons(advance, x, d', e, last, length);
        ScanAccepts(advance, name, xs[1..], NextExpected(advance, e, x), Some(x), length);
      }
    }
  }

  /**
   * The check as written accepts a record exactly when it has a declared
   * field, every declared field starts at or after 1 plus the lengths of
   * the declared fields before it, and the last one ends within the record.
   */
  lemma RecordAcceptedAsWritten(name: string, fields: seq<FieldConfig>, length: int)
    ensures RecordError(SumOfLengths, name, fields, length).None? <==>
      var d := Declared(fields);
      d != [] && AfterEarlierLengths(d, 1) && LastWithin(d[|d| - 1], length)
  {
    ScanAccepts(SumOfLengths, name, fields, 1, None, length);
  }

  /**
   * The intended check accepts a record exactly when it has a declared
   * field, the declared fields follow one another without overlapping,
   * starting at 1 or later, and the last one ends within the record.
   */
  lemma RecordAcceptedIntended(name: string, fields: seq<FieldConfig>, length: int)
    ensures RecordError(PastField, name, fields, length).None? <==>
      var d := Declared(fields);
      d != [] && NonOverlapping(d, 1) && LastWithin(d[|d| - 1], length)
  {
    ScanAccepts(PastField, name, fields, 1, None, length);
  }

  lemma {:induction false} ScanNotFound(advance: Advance, name: string, xs: seq<FieldConfig>, e: int, last: Option<FieldConfig>, length: int)
    ensures ScanFields(advance, name, xs, e, last, length) == Some(FieldNotFound(name)) <==> Declared(xs) == [] && last.None?
  {
    if xs != [] {
      var x := xs[0];
      if x.name == FILLER_FIELD_NAME {
        ScanNotFound(advance, name, xs[1..], e, last, length);
      } else {
        assert Declared(xs) == [x] + Declared(xs[1..]);
        ScanNotFound(advance, name, xs[1..], NextExpected(advance, e, x), Some(x), length);
      }
    }
  }

  /** "field was not found" is reported exactly for a record with no declared field. */
  lemma RecordErrorNotFound(advance: Advance, name: string, fields: seq<FieldConfig>, length: int)
    ensures RecordError(advance, name, fields, length) == Some(FieldNotFound(name)) <==> Declared(fields) == []
  {
    ScanNotFound(advance, name, fields, 1, None, length);
  }

  lemma {:induction false} ScanIgnoresFillers(advance: Advance, name: string, xs: seq<FieldConfig>, e: int, last: Option<FieldConfig>, length: int)
    ensures ScanFields(advance, name, xs, e, last, length) == ScanFields(advance, name, Declared(xs), e, last, length)
  {
    if xs != [] {
      var x := xs[0];
      if x.name == FILLER_FIELD_NAME {
        ScanIgnoresFillers(advance, name, xs[1..], e, last, length);
      } else {
        var d := Declared(xs);
        assert d == [x] + Declared(xs[1..]);
        assert d[0] == x && d[1..] == Declared(xs[1..]);
        ScanIgnoresFillers(advance, name, xs[1..], NextExpected(advance, e, x), Some(x), length);
      }
    }
  }

  /** Checking a record after its fillers were added is checking its declared fields in offset order. */
  lemma CheckAfterFillers(advance: Advance, name: string, fields: seq<FieldConfig>, length: int)
    ensures RecordError(advance, name, WithFillers(fields, length), length)
      == RecordError(advance, name, Declared(SortByOffset(fields)), length)
  {
    ScanIgnoresFillers(advance, name, WithFillers(fields, length), 1, None, length);
    WithFillersKeepsDeclared(fields, length);
    SortDeclared(fields);
  }

  // ---------------------------------------------------------------------
  // The finding: the check as written accepts overlapping fields
  // ---------------------------------------------------------------------

  /**
   * Fields a at 1 (1 byte), b at 10 (15 bytes) and c at 17 (1 byte) in a
   * 17-byte record: b runs to byte 24, over c and past the record's end,
   * yet the check as written accepts the record.
   */
  lemma OverlapAcceptedAsWritten()
    ensures var a, b, c := FieldConfig("a", 1, 1, Default), FieldConfig("b", 10, 15, Default), FieldConfig("c", 17, 1, Default);
      End(b) > c.offset && End(b) - 1 > 17
      && RecordError(SumOfLengths, SINGLE_LAYOUT_RECORD_NAME, [a, b, c], 17) == None
  {
    var a, b, c := FieldConfig("a", 1, 1, Default), FieldConfig("b", 10, 15, Default), FieldConfig("c", 17, 1, Default);
    var n := SINGLE_LAYOUT_RECORD_NAME;
    assert a.name != FILLER_FIELD_NAME && b.name != FILLER_FIELD_NAME && c.name != FILLER_FIELD_NAME;
    assert [a, b, c][1..] == [b, c] && [b, c][1..] == [c] && [c][1..] == [];
    assert ScanFields(SumOfLengths, n, [c], 17, Some(b), 17) == ScanFields(SumOfLengths, n, [], 18, Some(c), 17);
    assert ScanFields(SumOfLengths, n, [b, c], 2, Some(a), 17) == ScanFields(SumOfLengths, n, [c], 17, Some(b), 17);
  }

  /** A single-layout builder given those fields still accepts the record after adding the filler before b. */
  lemma OverlapBuiltAsWritten()
    ensures var a, b, c := FieldConfig("a", 1, 1, Default), FieldConfig("b", 10, 15, Default), FieldConfig("c", 17, 1, Default);
      RecordError(SumOfLengths, SINGLE_LAYOUT_RECORD_NAME, WithFillers([a, b, c], 17), 17) == None
  {
    var a, b, c := FieldConfig("a", 1, 1, Default), FieldConfig("b", 10, 15, Default), FieldConfig("c", 17, 1, Default);
    var fields := [a, b, c];
    assert a.name != FILLER_FIELD_NAME && b.name != FILLER_FIELD_NAME && c.name != FILLER_FIELD_NAME;
    DeclaredOfNoFillers(fields);
    assert SortedByOffset(fields);
    SortOfSorted(fields);
    CheckAfterFillers(SumOfLengths, SINGLE_LAYOUT_RECORD_NAME, fields, 17);
    OverlapAcceptedAsWritten();
  }

  /** The intended check rejects the same record at c, which starts before b ends. */
  lemma OverlapRejectedIntended()
    ensures var a, b, c := FieldConfig("a", 1, 1, Default), FieldConfig("b", 10, 15, Default), FieldConfig("c", 17, 1, Default);
      RecordError(PastField, SINGLE_LAYOUT_RECORD_NAME, [a, b, c], 17)
        == Some(FieldOffsetInvalid(SINGLE_LAYOUT_RECORD_NAME, "c", 25, 17))
  {
    var a, b, c := FieldConfig("a", 1, 1, Default), FieldConfig("b", 10, 15, Default), FieldConfig("c", 17, 1, Default);
    var n := SINGLE_LAYOUT_RECORD_NAME;
    assert a.name != FILLER_FIELD_NAME && b.name != FILLER_FIELD_NAME && c.name != FILLER_FIELD_NAME;
    assert [a, b, c][1..] == [b, c] && [b, c][1..] == [c];
    assert ScanFields(PastField, n, [b, c], 2, Some(a), 17) == ScanFields(PastField, n, [c], 25, Some(b), 17);
  }

  /** Fields that do not overlap each start at or after `start` plus the lengths of the fields before them. */
  lemma {:induction false} NonOverlappingAfterEarlier(d: seq<FieldConfig>, start: int)
    requires NonOverlapping(d, start)
    ensures AfterEarlierLengths(d, start)
  {
    if d != [] {
      var x, rest := d[0], d[1..];
      assert d == [x] + rest;
      NonOverlappingCons(x, rest, start);
      NonOverlappingAfterEarlier(rest, End(x));
      assert AfterEarlierLengths(rest, start + x.length) by {
        forall i | 0 <= i < |rest|
          ensures rest[i].offset >= start + x.length + SumLengths(rest[..i])
        {
          assert rest[i].offset >= End(x) + SumLengths(rest[..i]);
        }
      }
      AfterEarlierLengthsCons(x, rest, start);
    }
  }

  /** The intended check is the stricter one: a record it accepts, the check as written accepts too. */
  lemma IntendedStricter(name: string, fields: seq<FieldConfig>, length: int)
    ensures RecordError(PastField, name, fields, length).None? ==> RecordError(SumOfLengths, name, fields, length).None?
  {
    RecordAcceptedIntended(name, fields, length);
    RecordAcceptedAsWritten(name, fields, length);
    if RecordError(PastField, name, fields, length).None? {
      NonOverlappingAfterEarlier(Declared(fields), 1);
    }
  }

  // ---------------------------------------------------------------------
  // Tiling
  // ---------------------------------------------------------------------

  /** The fields follow one another, each at least one byte long, from byte `from` up to `to`. */
  predicate Tiles(s: seq<FieldConfig>, from: int, to: int)
    decreases |s|
  {
    if s == [] then from == to
    else s[0].offset == from && s[0].length > 0 && Tiles(s[1..], End(s[0]), to)
  }

  /** Sorted declared fields of positive length, none starting before `position`'s predecessor ends, the last within the record. */
  predicate Fits(d: seq<FieldConfig>, position: int, length: int)
    decreases |d|
  {
    if d == [] then position <= length + 1
    else d[0].length > 0 && d[0].offset >= position && Fits(d[1..], End(d[0]), length)
  }

  /** The fields with their fillers laid out directly in order: a reference layout. */
  function Interleave(d: seq<FieldConfig>, position: int, length: int): seq<FieldConfig>
    decreases |d|
  {
    if d == [] then TailFiller(position, length)
    else GapFiller(position, d[0].offset) + [d[0]] + Interleave(d[1..], End(d[0]), length)
  }

  lemma {:induction false} TilesAppend(a: seq<FieldConfig>, b: seq<FieldConfig>, from: int, mid: int, to: int)
    requires Tiles(a, from, mid) && Tiles(b, mid, to)
    ensures Tiles(a + b, from, to)
  {
    if a == [] {
      assert a + b == b;
    } else {
      assert (a + b)[0] == a[0] && (a + b)[1..] == a[1..] + b;
      TilesAppend(a[1..], b, End(a[0]), mid, to);
    }
  }

  lemma {:induction false} InterleaveTiles(d: seq<FieldConfig>, position: int, length: int)
    requires Fits(d, position, length)
    ensures Tiles(Interleave(d, position, length), position, length + 1)
  {
    if d == [] {
      var t := TailFiller(position, length);
      if t != [] {
        assert t[1..] == [];
      }
    } else {
      var g := GapFiller(position, d[0].offset);
      if g != [] {
        assert g[1..] == [];
      }
      assert Tiles(g, position, d[0].offset);
      assert [d[0]][1..] == [];
      assert Tiles([d[0]], d[0].offset, End(d[0]));
      InterleaveTiles(d[1..], End(d[0]), length);
      TilesAppend([d[0]], Interleave(d[1..], End(d[0]), length), d[0].offset, End(d[0]), length + 1);
      TilesAppend(g, [d[0]] + Interleave(d[1..], End(d[0]), length), position, d[0].offset, length + 1);
      assert g + [d[0]] + Interleave(d[1..], End(d[0]), length) == g + ([d[0]] + Interleave(d[1..], End(d[0]), length));
    }
  }

  lemma {:induction false} InterleaveMultiset(d: seq<FieldConfig>, position: int, length: int)
    ensures multiset(Interleave(d, position, length))
      == multiset(d) + multiset(GapFillers(d, position)) + multiset(TailFiller(PositionAfter(d, position), length))
  {
    if d != [] {
      var e := End(d[0]);
      var g := GapFiller(position, d[0].offset);
      var tail := multiset(TailFiller(PositionAfter(d[1..], e), length));
      assert d == [d[0]] + d[1..];
      calc {
        multiset(Interleave(d, position, length));
        multiset(g + [d[0]] + Interleave(d[1..], e, length));
        multiset(g) + multiset{d[0]} + multiset(Interleave(d[1..], e, length));
        { InterleaveMultiset(d[1..], e, length); }
        multiset(g) + multiset{d[0]} + (multiset(d[1..]) + multiset(GapFillers(d[1..], e)) + tail);
        (multiset{d[0]} + multiset(d[1..])) + (multiset(g) + multiset(GapFillers(d[1..], e))) + tail;
        multiset(d) + multiset(GapFillers(d, position)) + tail;
      }
    }
  }

  lemma {:induction false} TilesStrictlySorted(s: seq<FieldConfig>, from: int, to: int)
    requires Tiles(s, from, to)
    ensures StrictlySortedByOffset(s)
    ensures forall i :: 0 <= i < |s| ==> s[i].offset >= from
  {
    if s != [] {
      TilesStrictlySorted(s[1..], End(s[0]), to);
      forall i, j | 0 <= i < j < |s|
        ensures s[i].offset < s[j].offset
      {
        assert s[j] == s[1..][j - 1];
        if i > 0 {
          assert s[i] == s[1..][i - 1];
        }
      }
      forall i | 0 <= i < |s|
        ensures s[i].offset >= from
      {
        if i > 0 {
          assert s[i] == s[1..][i - 1];
        }
      }
    }
  }

  lemma {:induction false} TilesSum(s: seq<FieldConfig>, from: int, to: int)
    requires Tiles(s, from, to)
    ensures SumLengths(s) == to - from
  {
    if s != [] {
      TilesSum(s[1..], End(s[0]), to);
    }
  }

  lemma {:induction false} ScanPastFieldFits(name: string, d: seq<FieldConfig>, e: int, last: Option<FieldConfig>, length: int)
    requires forall i :: 0 <= i < |d| ==> d[i].name != FILLER_FIELD_NAME && d[i].length > 0
    requires last.Some? ==> e == End(last.value)
    requires ScanFields(PastField, name, d, e, last, length) == None
    ensures Fits(d, e, length)
  {
    if d != [] {
      ScanPastFieldFits(name, d[1..], End(d[0]), Some(d[0]), length);
    }
  }

  /** The declared fields of a record that passes the intended check, sorted, fit one after another within it. */
  lemma SortedFits(name: string, fields: seq<FieldConfig>, length: int)
    requires forall i :: 0 <= i < |fields| ==> fields[i].name != FILLER_FIELD_NAME && fields[i].length > 0
    requires RecordError(PastField, name, WithFillers(fields, length), length) == None
    ensures Fits(SortByOffset(fields), 1, length)
  {
    var sorted := SortByOffset(fields);
    forall i | 0 <= i < |sorted|
      ensures sorted[i].name != FILLER_FIELD_NAME && sorted[i].length > 0
    {
      assert sorted[i] in multiset(fields);
    }
    DeclaredOfNoFillers(sorted);
    CheckAfterFillers(PastField, name, fields, length);
    ScanPastFieldFits(name, sorted, 1, None, length);
  }

  /**
   * Tiling: when every declared field is at least one byte long and none
   * is named "filler", a record the intended check accepts is covered by
   * its fields and fillers exactly once, byte 1 to byte `length`, so their
   * lengths add up to the record length.
   */
  lemma WithFillersTiles(name: string, fields: seq<FieldConfig>, length: int)
    requires forall i :: 0 <= i < |fields| ==> fields[i].name != FILLER_FIELD_NAME && fields[i].length > 0
    requires RecordError(PastField, name, WithFillers(fields, length), length) == None
    ensures Tiles(WithFillers(fields, length), 1, length + 1)
    ensures SumLengths(WithFillers(fields, length)) == length
  {
    var sorted := SortByOffset(fields);
    var r := WithFillers(fields, length);
    SortedFits(name, fields, length);
    var tiling := Interleave(sorted, 1, length);
    InterleaveTiles(sorted, 1, length);
    TilesStrictlySorted(tiling, 1, length + 1);
    InterleaveMultiset(sorted, 1, length);
    assert multiset(r) == multiset(tiling);
    SortedUnique(r, tiling);
    TilesSum(r, 1, length + 1);
  }

  /** Fields that tile [from, to) lie inside it. */
  lemma {:induction false} TilesBounds(s: seq<FieldConfig>, from: int, to: int)
    requires Tiles(s, from, to)
    ensures forall i :: 0 <= i < |s| ==> from <= s[i].offset && 0 < s[i].length && End(s[i]) <= to
    decreases |s|
  {
    if s != [] {
      TilesBounds(s[1..], End(s[0]), to);
      TilesSum(s[1..], End(s[0]), to);
      assert forall i :: 1 <= i < |s| ==> s[i] == s[1..][i - 1];
      if |s| > 1 {
        assert End(s[0]) <= to;
      } else {
        assert End(s[0]) == to;
      }
    }
  }

  lemma TilesBoundsAt(s: seq<FieldConfig>, from: int, to: int, i: int)
    requires Tiles(s, from, to) && 0 <= i < |s|
    ensures from <= s[i].offset && 0 < s[i].length && End(s[i]) <= to
  {
    TilesBounds(s, from, to);
  }
}
