# Fixed-length and CSV data binding, modelled in Dafny

This project models the record engine of Nablarch's data-binding library
(`nablarch-common-databind`).

**Fixed-length layouts.** A layout is a record length plus, for each record
shape, a list of fields. Each field has a name, a 1-based byte offset, a
byte length and a converter.
- The layout builders (`SingleLayoutBuilder`, `MultiLayoutBuilder`,
  `RecordBuilder`, `FixedLengthDataBindConfigBuilder`) collect the fields
  and sort them by offset. They fill the gaps with `filler` fields and
  check the result (`LayoutBuilderSupport`).
- `FixedLengthReader` cuts records out of a byte stream, skips the line
  separator and reads every field through its converter.
- `FixedLengthWriter` assembles a record from a map, field by field, into a
  buffer of exactly the record length. It then writes the separator.
- The converters are `Rpad`, `Lpad`, `Binary`, `DefaultConverter` and
  `FillerConverter`. They turn a field's bytes into a value and back.

**The CSV mapping layer.**
- `CsvMapMapper` reads rows from a CSV reader, skipping empty lines when
  asked to. It checks each row's field count against the keys and binds
  the row to a map.
- `MapCsvMapper` turns maps into rows in key order and hands them to a CSV
  writer, after a header row when one is required.

## Modules

| file | module | what it holds |
|---|---|---|
| `results.dfy` | `Results` | `Option`, `Result`, the `Error` cases and the exception message of each |
| `charsets.dfy` | `Charsets` | bytes, and the charset as an encoder/decoder: ISO-8859-1 exactly, or an abstract charset with at least one byte per char |
| `config.dfy` | `Config` | field and layout configuration, the converter kinds, the stable sort by offset |
| `bytebuffer.dfy` | `Buffers` | `java.nio.ByteBuffer` as a class over a byte array |
| `converters.dfy` | `Converters` | read and write of every converter, their loops over a `ByteBuffer`, round trips |
| `layout.dfy` | `Layout` | filler insertion and layout verification, with the tiling theorem |
| `builders.dfy` | `Builders` | the four builder classes |
| `reader.dfy` | `Reader` | `FixedLengthReader`, with the stream as a byte sequence and a cursor |
| `writer.dfy` | `Writer` | `FixedLengthWriter`, with the output stream as the byte sequence written |
| `roundtrip.dfy` | `RoundTrip` | writing then reading, and reading then writing, a single-layout record |
| `csv.dfy` | `Csv` | `CsvObjectMapperSupport`/`CsvMapMapper` and `ObjectCsvMapperSupport`/`MapCsvMapper` |

**Errors.** Each exception is a `Result`/`Option` error whose data are the
numbers and names the message carries. `Results.Message` renders the
library's exact text.

**Stateful code is modelled as classes.** This covers the builders, the
reader's cursor and line number, the writer's output, the `ByteBuffer`s
used in the converters and the writer, and the CSV row source and sink.
Each method is proved against a specification function, and the lemmas
state the properties of those functions.

## Model

| member | source | states |
|---|---|---|
| Charsets.Encode | src/main/java/nablarch/common/databind/fixedlength/converter/Rpad.java:63-67 | a string encodes to at least one byte per char, and to exactly one per char under ISO-8859-1 |
| Charsets.EncodeAppend | src/main/java/nablarch/common/databind/fixedlength/converter/Rpad.java:67-71 | encoding distributes over concatenation, so the bytes of value-then-padding are the value's bytes then the padding's |
| Charsets.Latin1DecodeEncode | src/main/java/nablarch/common/databind/fixedlength/FixedLengthReader.java:108 | under ISO-8859-1, a string whose chars all fit in a byte decodes back from its encoding |
| Charsets.Latin1EncodeDecode | src/main/java/nablarch/common/databind/fixedlength/converter/DefaultConverter.java:22-36 | under ISO-8859-1, any bytes encode back from their decoding |
| Charsets.Latin1DecodeRepresentable | src/main/java/nablarch/common/databind/fixedlength/FixedLengthReader.java:108 | every decoded ISO-8859-1 string fits in bytes |
| Charsets.Latin1DecodeAt | src/main/java/nablarch/common/databind/fixedlength/FixedLengthReader.java:108 | ISO-8859-1 decoding turns each byte into the char of the same value, at the same index |
| Config.CompareByOffset | src/main/java/nablarch/common/databind/fixedlength/LayoutBuilderSupport.java:150-165 | the comparator is negative, zero or positive exactly as the first offset is below, equal to or above the second |
| Config.SortByOffset | src/main/java/nablarch/common/databind/fixedlength/LayoutBuilderSupport.java:77 | `Collections.sort` by offset: the result is sorted, a permutation of the input, of the same length |
| Config.SortStable | src/main/java/nablarch/common/databind/fixedlength/RecordBuilder.java:49 | the sort is stable: fields with equal offsets keep their relative order |
| Config.SortOfSorted | src/main/java/nablarch/common/databind/fixedlength/LayoutBuilderSupport.java:92 | sorting an already sorted list changes nothing |
| Config.SortedUnique | src/main/java/nablarch/common/databind/fixedlength/LayoutBuilderSupport.java:77-92 | a sorted list equals any strictly sorted list with the same elements |
| Config.SortDeclared | src/main/java/nablarch/common/databind/fixedlength/LayoutBuilderSupport.java:116-119 | dropping the fillers commutes with sorting |
| Config.DeclaredAppend | src/main/java/nablarch/common/databind/fixedlength/LayoutBuilderSupport.java:91 | dropping the fillers distributes over appending lists |
| Buffers.ByteBuffer.Put | src/main/java/nablarch/common/databind/fixedlength/FixedLengthWriter.java:46-49 | `put` succeeds exactly when the bytes fit; then they are written at the position and the position advances; otherwise nothing changes |
| Converters.RpadConvertOfRead | src/main/java/nablarch/common/databind/fixedlength/converter/Rpad.java:41-54 | the loop returns the decoded text with its trailing pad chars removed |
| Converters.LpadConvertOfRead | src/main/java/nablarch/common/databind/fixedlength/converter/Lpad.java:41-55 | the loop returns the decoded text with its leading pad chars removed |
| Converters.TrimEndShape | src/main/java/nablarch/common/databind/fixedlength/converter/Rpad.java:50-52 | the text Rpad reads is the decoded text minus a run of trailing pad chars, and it does not itself end in the pad char |
| Converters.TrimStartShape | src/main/java/nablarch/common/databind/fixedlength/converter/Lpad.java:49-53 | the text Lpad reads is the decoded text minus a run of leading pad chars, and it does not itself start with the pad char |
| Converters.RpadWrite | src/main/java/nablarch/common/databind/fixedlength/converter/Rpad.java:57-82 | a success comes from text, has the field's length and begins with the value's bytes; a value whose bytes exceed the field is a buffer overflow; under ISO-8859-1 any value that fits succeeds |
| Converters.RpadConvertOfWrite | src/main/java/nablarch/common/databind/fixedlength/converter/Rpad.java:57-82 | the `ByteBuffer` loop computes `RpadWrite` |
| Converters.PutUntilFull | src/main/java/nablarch/common/databind/fixedlength/converter/Rpad.java:69-71 | the padding loop puts whole pad chars after what was written until the buffer is full, or stops, with nothing more written, at the put that would overflow it |
| Converters.RpadWriteFits | src/main/java/nablarch/common/databind/fixedlength/converter/Rpad.java:66-81 | when whole pad chars fill the room exactly, the result is the value then the pad chars |
| Converters.RpadWriteOverflows | src/main/java/nablarch/common/databind/fixedlength/converter/Rpad.java:69-79 | a pad char that runs past the field gives the padding error, with the length the buffer would have reached |
| Converters.LpadWrite | src/main/java/nablarch/common/databind/fixedlength/converter/Lpad.java:57-82 | a success comes from text, has the field's length and ends with the value's bytes; a value whose bytes exceed the field gives the padding error; under ISO-8859-1 any value that fits succeeds |
| Converters.LpadConvertOfWrite | src/main/java/nablarch/common/databind/fixedlength/converter/Lpad.java:57-82 | the `ByteBuffer` loop computes `LpadWrite` |
| Converters.PutPadding | src/main/java/nablarch/common/databind/fixedlength/converter/Lpad.java:68-70 | the padding loop puts whole pad chars until the value's place is reached, with one copy fewer falling short of it; or it stops at the put that would overflow the buffer |
| Converters.LpadWritePadOverflows | src/main/java/nablarch/common/databind/fixedlength/converter/Lpad.java:68-70 | a pad char that overflows before the value's place is an uncaught buffer overflow |
| Converters.LpadWriteAfterPadding | src/main/java/nablarch/common/databind/fixedlength/converter/Lpad.java:68-81 | once the padding reaches the value's place, the outcome is the put of the value: the padding error if it does not fit, else pad chars then value |
| Converters.FillerWrite | src/main/java/nablarch/common/databind/fixedlength/converter/FillerConverter.java:39-46 | a negative length fails as a negative capacity; otherwise the fill succeeds exactly when the fill char's byte count divides the length, and fails with a buffer overflow when it does not; a fill is exactly the field length; under ISO-8859-1 it succeeds exactly when the length is not negative |
| Converters.FillerConvertOfWrite | src/main/java/nablarch/common/databind/fixedlength/converter/FillerConverter.java:39-46 | the `ByteBuffer` loop computes `FillerWrite` |
| Converters.FillerWriteLatin1 | src/main/java/nablarch/common/databind/fixedlength/converter/FillerConverter.java:40-45 | under ISO-8859-1 the filler is the fill char's byte once per byte of the field |
| Converters.DefaultWrite | src/main/java/nablarch/common/databind/fixedlength/converter/DefaultConverter.java:27-37 | succeeds exactly when the value is text or null (null as "") with as many chars as the field is long; under ISO-8859-1 the bytes have the field's length |
| Converters.BinaryWrite | src/main/java/nablarch/common/databind/fixedlength/converter/Binary.java:47-61 | succeeds exactly on a byte array of the field's length, which it returns unchanged |
| Converters.ConvertOfReadSpec | src/main/java/nablarch/common/databind/fixedlength/FixedLengthReader.java:125 | the field's converter reads its bytes: Binary (`converter/Binary.java:41-44`) hands them back unchanged; the default converter (`converter/DefaultConverter.java:22-24`) and the filler (`converter/FillerConverter.java:34-36`) decode them; Rpad decodes and drops the whole run of pad chars at the end, Lpad the whole run at the start, so the decoded text is the result plus that run |
| Converters.ConvertOfWrite | src/main/java/nablarch/common/databind/fixedlength/FixedLengthWriter.java:44 | every converter's success has the field's length, except the default converter under a multi-byte charset |
| Converters.RpadWriteLatin1 | src/main/java/nablarch/common/databind/fixedlength/converter/Rpad.java:57-82 | under ISO-8859-1, Rpad writes the value padded on the right to the field length |
| Converters.LpadWriteLatin1 | src/main/java/nablarch/common/databind/fixedlength/converter/Lpad.java:57-82 | under ISO-8859-1, Lpad writes the value padded on the left to the field length |
| Converters.RpadWriteRead | src/main/java/nablarch/common/databind/fixedlength/converter/Rpad.java:41-82 | under ISO-8859-1, reading what Rpad wrote gives back the value, when it fits the field and does not end in the pad char |
| Converters.RpadReadWrite | src/main/java/nablarch/common/databind/fixedlength/converter/Rpad.java:41-82 | under ISO-8859-1, writing what Rpad read gives back the field's bytes |
| Converters.LpadWriteRead | src/main/java/nablarch/common/databind/fixedlength/converter/Lpad.java:41-82 | under ISO-8859-1, reading what Lpad wrote gives back the value, when it fits the field and does not start with the pad char |
| Converters.LpadReadWrite | src/main/java/nablarch/common/databind/fixedlength/converter/Lpad.java:41-82 | under ISO-8859-1, writing what Lpad read gives back the field's bytes |
| Converters.RpadTwoBytePadOverflow | src/main/java/nablarch/common/databind/fixedlength/converter/Rpad.java:69-79 | a two-byte pad char and an odd room give the padding error with one byte too many |
| Converters.LpadTwoBytePadOverflow | src/main/java/nablarch/common/databind/fixedlength/converter/Lpad.java:68-80 | a two-byte pad char and an odd room before a value give the padding error with one byte too many |
| Converters.DefaultWriteRead | src/main/java/nablarch/common/databind/fixedlength/converter/DefaultConverter.java:22-37 | under ISO-8859-1, reading what the default converter wrote gives back a value of the field's length |
| Converters.DefaultReadWrite | src/main/java/nablarch/common/databind/fixedlength/converter/DefaultConverter.java:22-37 | under ISO-8859-1, writing what the default converter read gives back the field's bytes |
| Converters.ReadWriteRoundTrip | src/main/java/nablarch/common/databind/fixedlength/converter/Binary.java:41-57 | under ISO-8859-1, every converter except the filler (and a pad char outside ISO-8859-1) writes back the bytes it read |
| Layout.Fillers | src/main/java/nablarch/common/databind/fixedlength/LayoutBuilderSupport.java:78-90 | every filler is named `filler` and has a positive length |
| Layout.WithFillers | src/main/java/nablarch/common/databind/fixedlength/LayoutBuilderSupport.java:76-93 | the result is sorted, and as a multiset it is the fields plus the fillers for the gaps of the sorted fields |
| Layout.AddFillerFieldConfig | src/main/java/nablarch/common/databind/fixedlength/LayoutBuilderSupport.java:76-93 | the loop over the sorted fields computes `WithFillers` |
| Layout.WithFillersKeepsDeclared | src/main/java/nablarch/common/databind/fixedlength/LayoutBuilderSupport.java:76-93 | apart from the fillers, the result is the declared fields sorted by offset |
| Layout.VerifyFile | src/main/java/nablarch/common/databind/fixedlength/LayoutBuilderSupport.java:98-102 | a length is accepted exactly when it is positive; otherwise the error is `LengthInvalid` |
| Layout.ScanFields | src/main/java/nablarch/common/databind/fixedlength/LayoutBuilderSupport.java:114-142 | an error is one of the three layout errors, and it names the record checked |
| Layout.VerifyFieldList | src/main/java/nablarch/common/databind/fixedlength/LayoutBuilderSupport.java:114-142 | the loop over one record's fields computes `RecordError` |
| Layout.VerifyRecordConfig | src/main/java/nablarch/common/databind/fixedlength/LayoutBuilderSupport.java:109-144 | no error exactly when every record passes; otherwise the error of some record |
| Layout.NonOverlappingCons | src/main/java/nablarch/common/databind/fixedlength/LayoutBuilderSupport.java:121-129 | fields do not overlap from a position exactly when the first starts there or later and the rest do not overlap from its end |
| Layout.RecordAcceptedAsWritten | src/main/java/nablarch/common/databind/fixedlength/LayoutBuilderSupport.java:114-142 | as written, a record passes exactly when each declared field starts at or after the sum of the earlier lengths and the last ends within the record |
| Layout.RecordAcceptedIntended | src/main/java/nablarch/common/databind/fixedlength/LayoutBuilderSupport.java:114-142 | with the check advanced past each field, a record passes exactly when its declared fields do not overlap and the last ends within the record |
| Layout.RecordErrorNotFound | src/main/java/nablarch/common/databind/fixedlength/LayoutBuilderSupport.java:132-134 | `FieldNotFound` is reported exactly when the record has no field but fillers |
| Layout.ScanIgnoresFillers | src/main/java/nablarch/common/databind/fixedlength/LayoutBuilderSupport.java:117-119 | the check skips fillers: it gives the same outcome without them |
| Layout.ScanAccepts | src/main/java/nablarch/common/databind/fixedlength/LayoutBuilderSupport.java:114-142 | the scan over one record reports no error exactly when its declared fields satisfy the acceptance condition `Accepts` |
| Layout.CheckAfterFillers | src/main/java/nablarch/common/databind/fixedlength/LayoutBuilderSupport.java:109-144 | checking the layout with fillers added is checking the sorted declared fields |
| Layout.OverlapAcceptedAsWritten | src/main/java/nablarch/common/databind/fixedlength/LayoutBuilderSupport.java:121-128 | fields (1,1), (10,15), (17,1) in a 17-byte record overlap and run past its end, yet the check as written accepts them |
| Layout.OverlapBuiltAsWritten | src/main/java/nablarch/common/databind/fixedlength/SingleLayoutBuilder.java:48-56 | the same fields also pass after the fillers are added |
| Layout.OverlapRejectedIntended | src/main/java/nablarch/common/databind/fixedlength/LayoutBuilderSupport.java:121-128 | the corrected check rejects them: `c` at 17 where 25 was expected |
| Layout.NonOverlappingAfterEarlier | src/main/java/nablarch/common/databind/fixedlength/LayoutBuilderSupport.java:121-128 | fields that do not overlap each start at or after the start plus the lengths of the fields before them |
| Layout.IntendedStricter | src/main/java/nablarch/common/databind/fixedlength/LayoutBuilderSupport.java:121-128 | a record the corrected check accepts, the check as written accepts too |
| Layout.TilesStrictlySorted | src/main/java/nablarch/common/databind/fixedlength/LayoutBuilderSupport.java:92 | fields that tile a range are strictly sorted by offset |
| Layout.TilesSum | src/main/java/nablarch/common/databind/fixedlength/LayoutBuilderSupport.java:87-90 | the lengths of fields that tile a range add up to its size |
| Layout.WithFillersTiles | src/main/java/nablarch/common/databind/fixedlength/LayoutBuilderSupport.java:76-144 | a layout of positive-length declared fields that passes the corrected check is, with its fillers, a gapless and overlap-free tiling of bytes 1 to the length, whose lengths sum to the length |
| Layout.TilesBounds | src/main/java/nablarch/common/databind/fixedlength/FixedLengthReader.java:122-126 | every field of a tiling lies within the tiled range |
| Builders.BuildSingle | src/main/java/nablarch/common/databind/fixedlength/SingleLayoutBuilder.java:48-56 | a non-positive length is `LengthInvalid`; a success is the configuration with the given settings, no record identifier and one record, `single`, holding the fields with their fillers, sorted by offset |
| Builders.SingleLayoutBuildsOverlap | src/main/java/nablarch/common/databind/fixedlength/SingleLayoutBuilder.java:48-56 | the single-layout build accepts fields (1,1), (10,15), (17,1) in a 17-byte record, although `b` overlaps `c` and runs past the record |
| Builders.SingleLayoutBuilder.constructor | src/main/java/nablarch/common/databind/fixedlength/SingleLayoutBuilder.java:29-31 | a new builder carries the settings it is given and no fields |
| Builders.SingleLayoutAccepted | src/main/java/nablarch/common/databind/fixedlength/SingleLayoutBuilder.java:48-56 | with the record check as written, the build succeeds exactly when the length is positive and the declared fields, sorted, are non-empty, each start at or after 1 plus the lengths of the declared fields before them, and the last ends within the record; the record holds them |
| Builders.SingleLayoutTiles | src/main/java/nablarch/common/databind/fixedlength/SingleLayoutBuilder.java:48-56 | the intended half of the finding below: when every declared field has a positive length and the fields with fillers pass the corrected check, the build succeeds and the record is tiled by its fields and fillers |
| Builders.SingleLayoutBuilder.Field | src/main/java/nablarch/common/databind/fixedlength/SingleLayoutBuilder.java:35-37 | appends a field with the default converter |
| Builders.SingleLayoutBuilder.FieldWith | src/main/java/nablarch/common/databind/fixedlength/SingleLayoutBuilder.java:41-44 | appends a field with the given converter |
| Builders.SingleLayoutBuilder.Build | src/main/java/nablarch/common/databind/fixedlength/SingleLayoutBuilder.java:48-56 | the field list gains its fillers in place, and the result is `BuildSingle` |
| Builders.AllWithFillers | src/main/java/nablarch/common/databind/fixedlength/MultiLayoutBuilder.java:86-89 | every record keeps its name and is sorted |
| Builders.AddFillersToRecords | src/main/java/nablarch/common/databind/fixedlength/MultiLayoutBuilder.java:86-89 | the loop over the records computes `AllWithFillers` |
| Builders.MultiLayoutTiles | src/main/java/nablarch/common/databind/fixedlength/MultiLayoutBuilder.java:80-95 | the intended half of the finding below: when every declared field has a positive length and every record with its fillers passes the corrected check, every record also passes the check as written, so the build succeeds, and each record is tiled by its fields and fillers |
| Builders.MultiLayoutBuilder.constructor | src/main/java/nablarch/common/databind/fixedlength/MultiLayoutBuilder.java:35-37 | a new builder carries the settings it is given, with no identifier, no records and no current record |
| Builders.MultiLayoutBuilder.Field | src/main/java/nablarch/common/databind/fixedlength/MultiLayoutBuilder.java:41-43 | without a current record it fails with `RecordNotSelected`; otherwise it appends a default-converter field to the current record only |
| Builders.MultiLayoutBuilder.FieldWith | src/main/java/nablarch/common/databind/fixedlength/MultiLayoutBuilder.java:47-53 | the same, with the given converter |
| Builders.MultiLayoutBuilder.Record | src/main/java/nablarch/common/databind/fixedlength/MultiLayoutBuilder.java:61-65 | starts an empty record under the name, replacing any earlier one, and makes it current |
| Builders.MultiLayoutBuilder.SetRecordIdentifier | src/main/java/nablarch/common/databind/fixedlength/MultiLayoutBuilder.java:73-76 | sets the identifier and changes nothing else |
| Builders.MultiLayoutBuilder.Build | src/main/java/nablarch/common/databind/fixedlength/MultiLayoutBuilder.java:80-95 | a missing identifier fails first, before anything changes; then every record gains its fillers; the build succeeds exactly when the length is positive and every record passes the record check as written; an error is some record's |
| Builders.RecordBuilder.AddField | src/main/java/nablarch/common/databind/fixedlength/RecordBuilder.java:27-29 | appends a field with the default converter |
| Builders.RecordBuilder.AddFieldWith | src/main/java/nablarch/common/databind/fixedlength/RecordBuilder.java:39-42 | appends a field with the given converter |
| Builders.RecordBuilder.Build | src/main/java/nablarch/common/databind/fixedlength/RecordBuilder.java:48-51 | sorts the list in place and returns it |
| Builders.FixedLengthDataBindConfigBuilder.constructor | src/main/java/nablarch/common/databind/fixedlength/FixedLengthDataBindConfigBuilder.java:16-33 | a new builder has length 0, the ISO-8859-1 charset, no line separator and fill char ' ' |
| Builders.FixedLengthDataBindConfigBuilder.Length | src/main/java/nablarch/common/databind/fixedlength/FixedLengthDataBindConfigBuilder.java:48-51 | sets the length, keeps the other settings and returns the same builder |
| Builders.FixedLengthDataBindConfigBuilder.SetCharset | src/main/java/nablarch/common/databind/fixedlength/FixedLengthDataBindConfigBuilder.java:59-62 | sets the charset, keeps the other settings and returns the same builder |
| Builders.FixedLengthDataBindConfigBuilder.LineSeparator | src/main/java/nablarch/common/databind/fixedlength/FixedLengthDataBindConfigBuilder.java:70-73 | sets the separator, possibly null,, keeps the other settings and returns the same builder |
| Builders.FixedLengthDataBindConfigBuilder.FillChar | src/main/java/nablarch/common/databind/fixedlength/FixedLengthDataBindConfigBuilder.java:81-84 | sets the fill char, keeps the other settings and returns the same builder |
| Builders.FixedLengthDataBindConfigBuilder.SingleLayout | src/main/java/nablarch/common/databind/fixedlength/FixedLengthDataBindConfigBuilder.java:90-92 | a new single-layout builder with the settings made so far |
| Builders.FixedLengthDataBindConfigBuilder.MultiLayout | src/main/java/nablarch/common/databind/fixedlength/FixedLengthDataBindConfigBuilder.java:98-100 | a new multi-layout builder with the settings made so far |
| Reader.CopyOfRange | src/main/java/nablarch/common/databind/fixedlength/FixedLengthReader.java:124 | `Arrays.copyOfRange`: defined exactly for a start within the record and not after the end; the copy has the requested length and is zero-padded past the record |
| Reader.ReadValue | src/main/java/nablarch/common/databind/fixedlength/FixedLengthReader.java:122-126 | a field inside the record reads through its converter from exactly its bytes; a negative length is an illegal range |
| Reader.FieldsOf | src/main/java/nablarch/common/databind/fixedlength/FixedLengthReader.java:79-81 | a successful read has one key per field name |
| Reader.ReadFields | src/main/java/nablarch/common/databind/fixedlength/FixedLengthReader.java:73-81 | the loop over the fields computes `FieldsOf` |
| Reader.FieldsOfOk | src/main/java/nablarch/common/databind/fixedlength/FixedLengthReader.java:79-81 | the fields read exactly when every field reads |
| Reader.FieldsOfFirstError | src/main/java/nablarch/common/databind/fixedlength/FixedLengthReader.java:79-81 | a failure is the error of the first field that fails |
| Reader.FieldsOfValue | src/main/java/nablarch/common/databind/fixedlength/FixedLengthReader.java:79-81 | a name maps to the value of its last field |
| Reader.FieldsOfErrSticks | src/main/java/nablarch/common/databind/fixedlength/FixedLengthReader.java:79-81 | once a field fails, the rest of the list does not change the error |
| Reader.ReadCount | src/main/java/nablarch/common/databind/fixedlength/FixedLengthReader.java:53 | a channel read gives -1 exactly at the end of the data, otherwise as many bytes as are asked for and available |
| Reader.SkipLineSeparator | src/main/java/nablarch/common/databind/fixedlength/FixedLengthReader.java:94-111 | the cursor only moves forward and stays within the data; any error is the invalid-separator error at the current line |
| Reader.FixedLengthReader.constructor | src/main/java/nablarch/common/databind/fixedlength/FixedLengthReader.java:39-42 | a new reader starts at the beginning of its data, at line 0 |
| Reader.FixedLengthReader.Read | src/main/java/nablarch/common/databind/fixedlength/FixedLengthReader.java:53 | returns those bytes and advances the cursor past them |
| Reader.FixedLengthReader.SkipLineSeparatorOnce | src/main/java/nablarch/common/databind/fixedlength/FixedLengthReader.java:94-111 | computes `SkipLineSeparator` from the cursor |
| Reader.FixedLengthReader.ReadRecordOnce | src/main/java/nablarch/common/databind/fixedlength/FixedLengthReader.java:49-87 | counts one more line unless the buffer cannot be allocated, and computes `ReadStep` |
| Reader.RecordData | src/main/java/nablarch/common/databind/fixedlength/FixedLengthReader.java:63-82 | a single layout gives one key per field; a multi layout gives `recordName` and the identified record's name, mapped to that record's fields |
| Reader.ReadStep | src/main/java/nablarch/common/databind/fixedlength/FixedLengthReader.java:49-87 | the cursor only moves forward and stays within the data; a record read carries the current line number |
| Reader.ReadAtEnd | src/main/java/nablarch/common/databind/fixedlength/FixedLengthReader.java:53-56 | at the end of the data, the read is null and nothing moves |
| Reader.ReadShort | src/main/java/nablarch/common/databind/fixedlength/FixedLengthReader.java:57-59 | fewer bytes than a record fail as a short last record and are consumed |
| Reader.ReadTakesRecord | src/main/java/nablarch/common/databind/fixedlength/FixedLengthReader.java:50-83 | a record read is the `length` bytes at the cursor, and the stream is left after the separator |
| Reader.SkipNothing | src/main/java/nablarch/common/databind/fixedlength/FixedLengthReader.java:95-97 | a null or empty separator skips nothing |
| Reader.SkipAtEnd | src/main/java/nablarch/common/databind/fixedlength/FixedLengthReader.java:104-105 | at the end of the data, the separator is not required |
| Reader.SkipPartial | src/main/java/nablarch/common/databind/fixedlength/FixedLengthReader.java:106-107 | a separator cut short by the end of the data is an error |
| Reader.SkipLatin1 | src/main/java/nablarch/common/databind/fixedlength/FixedLengthReader.java:98-110 | under ISO-8859-1 the separator is accepted exactly when the next bytes are its encoding; as many bytes as it has chars are consumed |
| Reader.TiledFieldsReadable | src/main/java/nablarch/common/databind/fixedlength/FixedLengthReader.java:79-81 | the fields of a tiled layout all read |
| Reader.ReadTiledRecord | src/main/java/nablarch/common/databind/fixedlength/FixedLengthReader.java:79-81 | in a tiled layout each field's name maps to its converter's reading of its own bytes |
| Reader.FieldsOfInside | src/main/java/nablarch/common/databind/fixedlength/FixedLengthReader.java:79-81 | a field inside the record, not overridden by a later field of the same name, maps to what its converter reads from its own bytes |
| Writer.Assemble | src/main/java/nablarch/common/databind/fixedlength/FixedLengthWriter.java:43-50 | the bytes assembled never exceed the record length |
| Writer.RecordBytes | src/main/java/nablarch/common/databind/fixedlength/FixedLengthWriter.java:39-53 | an assembled record has exactly the record length; a negative length fails at allocation |
| Writer.WriteRecordSpec | src/main/java/nablarch/common/databind/fixedlength/FixedLengthWriter.java:39-62 | nothing is written unless the whole record was assembled; what is written starts with the record; success writes the record then the separator's bytes |
| Writer.FixedLengthWriter.constructor | src/main/java/nablarch/common/databind/fixedlength/FixedLengthWriter.java:30-33 | a new writer has written nothing |
| Writer.AssembleErrSticks | src/main/java/nablarch/common/databind/fixedlength/FixedLengthWriter.java:43-50 | the first failing field ends the loop with its error |
| Writer.FixedLengthWriter.PutFields | src/main/java/nablarch/common/databind/fixedlength/FixedLengthWriter.java:43-50 | the `ByteBuffer` loop fails exactly when `Assemble` does, with the same error; otherwise the buffer holds `Assemble`'s bytes |
| Writer.FixedLengthWriter.PutField | src/main/java/nablarch/common/databind/fixedlength/FixedLengthWriter.java:44-49 | one turn of the loop: the buffer gains the field's bytes as `Assemble` does, or the call reports the error `Assemble` ends with |
| Writer.FixedLengthWriter.WriteRecord | src/main/java/nablarch/common/databind/fixedlength/FixedLengthWriter.java:39-62 | the output grows by exactly `WriteRecordSpec`'s bytes and the call ends with its error |
| Writer.FixedLengthWriter.WriteLineSeparator | src/main/java/nablarch/common/databind/fixedlength/FixedLengthWriter.java:79-84 | a null separator fails and writes nothing; a separator with more bytes than chars overflows and writes nothing; otherwise its bytes are written |
| Writer.TilesOffsets | src/main/java/nablarch/common/databind/fixedlength/LayoutBuilderSupport.java:76-93 | in a tiling each field starts where the previous ends, the first at the start, the last ending at the end |
| Writer.AssemblePrefixTiled | src/main/java/nablarch/common/databind/fixedlength/FixedLengthWriter.java:43-50 | over a tiled layout whose values encode to their field lengths, the first k fields assemble to the bytes before field k, each field's bytes at its offset |
| Writer.AssembleTiled | src/main/java/nablarch/common/databind/fixedlength/FixedLengthWriter.java:39-53 | over such a layout the record is assembled whole, every field's bytes at its offset |
| RoundTrip.AssembleSlices | src/main/java/nablarch/common/databind/fixedlength/FixedLengthWriter.java:43-50 | when every field writes back the record's own bytes for it, the loop rebuilds the record |
| RoundTrip.ReadValuesWriteBack | src/main/java/nablarch/common/databind/fixedlength/FixedLengthReader.java:78-81 | every value read from a tiled record, with distinct names and reversible converters, writes back to the field's own bytes |
| RoundTrip.ReadThenWrite | src/main/java/nablarch/common/databind/fixedlength/FixedLengthReader.java:78-81 | reading a record of a tiled single layout and writing the values read gives back the record, byte for byte |
| RoundTrip.WriteThenRead | src/main/java/nablarch/common/databind/fixedlength/FixedLengthWriter.java:39-84 | writing a map and reading the bytes back gives the record at the current line and leaves the stream after the separator; each field reads back what its converter reads from its written bytes |
| RoundTrip.WrittenRecordStep | src/main/java/nablarch/common/databind/fixedlength/FixedLengthReader.java:49-87 | the read step over the bytes written for a map gives the fields read from the assembled record and leaves the stream after the separator |
| Csv.Properties | src/main/java/nablarch/common/databind/csv/CsvObjectMapperSupport.java:117-123 | the properties when there are any, else the header titles |
| Csv.RowSource.Read | src/main/java/nablarch/common/databind/csv/CsvObjectMapperSupport.java:88 | the next row and one step forward, or null at the end with nothing consumed |
| Csv.IsEmptyLine | src/main/java/nablarch/common/databind/csv/CsvObjectMapperSupport.java:109-111 | a line is empty exactly when it is a row (not the end of data) holding a single field that is null or the empty string |
| Csv.SkipEmptyLines | src/main/java/nablarch/common/databind/csv/CsvObjectMapperSupport.java:89-91 | the first row at or after the index that is not an empty line: all rows skipped are empty lines |
| Csv.NextLineAsIs | src/main/java/nablarch/common/databind/csv/CsvObjectMapperSupport.java:87-93 | without empty-line skipping, `readLine` gives the next row as it is |
| Csv.NextLineSkips | src/main/java/nablarch/common/databind/csv/CsvObjectMapperSupport.java:87-93 | with skipping, `readLine` never returns an empty line; it is null exactly when only empty lines are left, and otherwise the first non-empty row |
| Csv.CsvMapMapper.ReadLine | src/main/java/nablarch/common/databind/csv/CsvObjectMapperSupport.java:87-93 | the loop computes `NextLine` and leaves the reader after the row |
| Csv.CsvMapMapper.ReadHeader | src/main/java/nablarch/common/databind/csv/CsvObjectMapperSupport.java:70-72 | reads one line only when a header is required; otherwise it reads nothing and returns null |
| Csv.CsvMapMapper.constructor | src/main/java/nablarch/common/databind/csv/CsvMapMapper.java:34-37 | the header row is consumed at construction, and only when it is required |
| Csv.VerifyFieldCount | src/main/java/nablarch/common/databind/csv/CsvMapMapper.java:67-73 | a row passes exactly when it has as many fields as there are keys; otherwise the error carries both counts and the line number |
| Csv.ZipMap | src/main/java/nablarch/common/databind/csv/CsvMapMapper.java:53-60 | the map's keys are exactly the keys |
| Csv.ZipMapValue | src/main/java/nablarch/common/databind/csv/CsvMapMapper.java:56-58 | a key maps to the field at its last position |
| Csv.ZipMapSize | src/main/java/nablarch/common/databind/csv/CsvMapMapper.java:54-59 | with distinct keys, the map has one entry per key |
| Csv.CsvMapMapper.CreateMap | src/main/java/nablarch/common/databind/csv/CsvMapMapper.java:53-60 | the loop computes `ZipMap` |
| Csv.ReadSpec | src/main/java/nablarch/common/databind/csv/CsvObjectMapperSupport.java:55-61 | null at the end; a row of the wrong width is the field-count error; a row of the right width binds to a map with exactly the keys, each key to its field |
| Csv.CsvMapMapper.Read | src/main/java/nablarch/common/databind/csv/CsvMapMapper.java:40-45 | reads the next line and computes `ReadSpec` on it with the reader's line number |
| Csv.CsvMapMapper.Write | src/main/java/nablarch/common/databind/csv/CsvObjectMapperSupport.java:50-52 | always fails as unsupported |
| Csv.RowSink.Write | src/main/java/nablarch/common/databind/csv/ObjectCsvMapperSupport.java:84 | appends exactly one row |
| Csv.ValuesOf | src/main/java/nablarch/common/databind/csv/MapCsvMapper.java:37-44 | one value per key, in key order: the map's value, or null for a key the map lacks |
| Csv.HeaderRow | src/main/java/nablarch/common/databind/csv/ObjectCsvMapperSupport.java:60 | the header row is the header titles, even when properties are set |
| Csv.MapCsvMapper.constructor | src/main/java/nablarch/common/databind/csv/MapCsvMapper.java:31-34 | the header row is written at construction, before any record, and only when it is required |
| Csv.MapCsvMapper.WriteHeader | src/main/java/nablarch/common/databind/csv/ObjectCsvMapperSupport.java:55-64 | writes the header row when one is required, and nothing otherwise |
| Csv.MapCsvMapper.ConvertValues | src/main/java/nablarch/common/databind/csv/MapCsvMapper.java:37-44 | the array loop computes `ValuesOf` |
| Csv.MapCsvMapper.Write | src/main/java/nablarch/common/databind/csv/ObjectCsvMapperSupport.java:82-88 | sends exactly one row, the converted values, to the writer |
| Csv.MapCsvMapper.Read | src/main/java/nablarch/common/databind/csv/ObjectCsvMapperSupport.java:77-79 | always fails as unsupported |
| Csv.ValuesIgnoreOtherKeys | src/main/java/nablarch/common/databind/csv/MapCsvMapper.java:40-42 | map entries whose key is not a key do not change the row |
| Csv.WriteThenBind | src/main/java/nablarch/common/databind/csv/CsvMapMapper.java:53-60 | binding the row written for a map with exactly the (distinct) keys gives back the map |
| Csv.BindThenWrite | src/main/java/nablarch/common/databind/csv/MapCsvMapper.java:37-44 | writing the map bound from a row gives back the row, when the keys are distinct |

## Left out

- **Channels and streams.** Stream I/O, partial channel reads, `close` and `IOException` are not modelled.
  - The reader's input is a byte sequence that is available in full; a channel read returns as many bytes as are asked for and remain.
  - The writer's output is the byte sequence written so far.
- **The CSV reader and writer.** `CsvDataReader`, `CsvDataWriter`, `CsvTokenizer` and `CsvDataBindConfig` are not part of this model. Tokenizing, quoting and text conversion are therefore left out.
  - The reader is a sequence of rows, each with the line number the reader reports after it.
  - The writer is the list of rows handed to it.
  - Map values are modelled as strings or null.
- **CSV keys.** `CsvDataBindConfig.getKeys` is not part of this model. The keys are taken to be chosen like `getProperties`: the properties when there are any, else the header titles, as the tests of reading with properties show.
  - `StringUtil.hasValue` on the property array is modelled as "non-empty".
- **Default charset.** `FixedLengthDataBindConfigBuilder` starts with a null charset. The model starts with ISO-8859-1, because a charset is a value here, not a nullable reference.
- **Charsets.** Only ISO-8859-1 is modelled exactly. Any other charset is abstract: at least one byte per char, with an arbitrary decoder. Round trips are proved under ISO-8859-1 only.
  - Java's UTF-16 string lengths and surrogate pairs are not modelled; a char is one Dafny `char`.
- **Converter dispatch.** `FieldConfig`'s converter and `FieldConfig.convertWriteValue` are not part of this model. Each field carries its converter kind, and the writer calls that converter's `convertOfWrite`.
  - `Rpad`/`Lpad` given null fail with a null reference (`StringUtil.getBytes` is not part of this model).
  - The default converter given any value other than a string or null (byte arrays, record names and nested maps included) fails as "not text"; Java would call `toString` on it.
  - `FieldConvert.FieldConverter.initialize` is not modelled.
- **Multi-layout writing.** `FixedLengthWriter.writeRecord` always uses the `single` record. A multi layout therefore fails there with a null reference, as in the source.
- **Record identifier.** `MultiLayoutConfig.RecordIdentifier` is modelled as a function from record bytes to a record name. The `RecordName` wrapper object is its name.
- **Integer width.** Offsets, lengths and positions are unbounded integers. Java's 32-bit overflow of `offset + length` is not modelled.
- **HashMap iteration order.** `verifyRecordConfig` and the multi-layout build visit records in an unspecified order, so the model reports "some record's error" rather than a particular one.
- **Aliasing.** `RecordBuilder.build` and `SingleLayoutBuilder.build` hand out the builder's own list. The model returns a copy, so later changes through the builder are not shared.
- **Reflection.** The annotation-driven configuration and the bean mappers, including `CsvObjectMapperSupport.toBufferedReader`, are outside the mapping core.
- **Message.** `Results.Message` renders the exception texts, but no property is stated about it.

## Findings

| source | as written | input that shows it | evidently intended | confidence | as-written member | corrected member |
|---|---|---|---|---|---|---|
| src/main/java/nablarch/common/databind/fixedlength/LayoutBuilderSupport.java:121-128 | the expected offset advances by each field's length only, the sum of the lengths so far, so a field after a gap may overlap the previous one and the last field may end past the record | length 17 with fields `a` (offset 1, length 1), `b` (10, 15), `c` (17, 1): `b` covers bytes 10-24, which overlaps `c` and runs past the record, yet the check passes because `c` is compared with 1+1+15 = 17 and only `c`'s end is compared with the length | each field must start at or after the end of the previous one (`expectedOffset = offset + length`), which rejects `c` (expected 25, found 17) | not executed | Layout.OverlapAcceptedAsWritten | Layout.OverlapRejectedIntended |

The builders use the check as written, as the library does;
`Layout.RecordAcceptedAsWritten` and `Builders.SingleLayoutAccepted`
characterise what it accepts, and `Builders.SingleLayoutBuildsOverlap` shows
the overlapping layout building. The corrected check is the stricter one
(`Layout.IntendedStricter`), and `Layout.RecordAcceptedIntended`,
`Layout.WithFillersTiles`, `Builders.SingleLayoutTiles` and
`Builders.MultiLayoutTiles` prove what it gives: a layout that passes it
builds and is gapless and free of overlaps once its fillers are added.
