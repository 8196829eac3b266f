/**
 * Outcome and error types shared by the fixed-length engine and the CSV
 * mapping layer. Every exception the library raises becomes one `Error`
 * variant carrying the data its message is built from; `Message` renders
 * the exact text of the exception message.
 */
module Results {

  datatype Option<+T> = None | Some(value: T)

  datatype Result<+T> = Ok(value: T) | Err(error: Error)

  datatype Error =
      // LayoutBuilderSupport.verifyFile
    | LengthInvalid
      // LayoutBuilderSupport.verifyRecordConfig
    | FieldOffsetInvalid(recordName: string, fieldName: string, expectedOffset: int, actualOffset: int)
    | FieldNotFound(recordName: string)
    | FieldLengthInvalid(recordName: string, fieldName: string, expectedLength: int, actualLength: int)
      // MultiLayoutBuilder
    | RecordNotSelected
    | RecordIdentifierUndefined
      // FixedLengthReader (InvalidDataFormatException with the record number)
    | LastRecordShort(lineNumber: int)
    | LineSeparatorInvalid(lineNumber: int)
      // FixedLengthWriter
    | RecordLengthInvalid(expectedLength: int, actualLength: int)
      // Rpad / Lpad converters
    | PaddingLengthInvalid(expectedLength: int, actualLength: int, fieldName: string, output: string, padChar: char)
      // DefaultConverter
    | TextLengthInvalid(expectedLength: int, actualLength: int, fieldName: string, output: string)
      // BinaryConverter
    | BinaryLengthInvalid(expectedLength: int, actualLength: int, fieldName: string)
    | BinaryOnly
      // CsvMapMapper (InvalidDataFormatException with the reader's line number)
    | PropertySizeMismatch(expectedCount: int, actualCount: int, lineNumber: int)
      // CsvObjectMapperSupport.write / ObjectCsvMapperSupport.read
    | UnsupportedWrite
    | UnsupportedRead
      // runtime exceptions raised by the Java platform, without a message of the library's own
    | BufferOverflow              // java.nio.BufferOverflowException
    | NegativeCapacity            // ByteBuffer.allocate with a negative size
    | IndexOutOfRange             // Arrays.copyOfRange with a start outside the array
    | IllegalRange                // Arrays.copyOfRange with start > end
    | NotText                     // a value that is not a string where a string is expected
    | NullReference(what: string) // a NullPointerException on the named reference

  /** The text of one decimal digit. */
  function DigitChar(d: nat): char
    requires d < 10
  {
    "0123456789"[d]
  }

  /** Decimal text of a natural number, as Java's Integer.toString prints it. */
  function NatToString(n: nat): (s: string)
    ensures |s| >= 1
    ensures forall i :: 0 <= i < |s| ==> '0' <= s[i] <= '9'
    decreases n
  {
    if n < 10 then [DigitChar(n)] else NatToString(n / 10) + [DigitChar(n % 10)]
  }

  /** Decimal text of an integer, with a leading minus sign when negative. */
  function IntToString(i: int): string
  {
    if i < 0 then "-" + NatToString(-i) else NatToString(i)
  }

  /** The exception message the library attaches to each error. */
  function Message(e: Error): string
  {
    match e
    case LengthInvalid => "length is invalid. must set greater than 0."
    case FieldOffsetInvalid(r, f, expected, actual) =>
      "field offset is invalid. record_name:" + r + ", field_name:" + f
        + ", expected offset:" + IntToString(expected) + " but was " + IntToString(actual)
    case FieldNotFound(r) => "field was not found. record_name:" + r
    case FieldLengthInvalid(r, f, expected, actual) =>
      "field length is invalid. record_name:" + r + ", field_name:" + f
        + ", expected length:" + IntToString(expected) + " but was " + IntToString(actual)
    case RecordNotSelected => "must be calling record method before calling field method."
    case RecordIdentifierUndefined => "record identifier is undefined."
    case LastRecordShort(_) => "last record is short."
    case LineSeparatorInvalid(_) => "line separator is invalid."
    case RecordLengthInvalid(expected, actual) =>
      "record length is invalid. expected_length:" + IntToString(expected)
        + ", actual_length:" + IntToString(actual)
    case PaddingLengthInvalid(expected, actual, f, output, pad) =>
      "length after padding is invalid. expected length " + IntToString(expected)
        + " but was actual length " + IntToString(actual) + "."
        + " field_name: " + f + " output value: " + output + " padding_char: " + [pad]
    case TextLengthInvalid(expected, actual, f, output) =>
      "length is invalid. expected length " + IntToString(expected)
        + " but was actual length " + IntToString(actual) + "."
        + " field_name: " + f + " output value: " + output
    case BinaryLengthInvalid(expected, actual, f) =>
      "length is invalid. expected length " + IntToString(expected)
        + " but was actual length " + IntToString(actual) + "."
        + " field_name: " + f
    case BinaryOnly => "output is byte array only."
    case PropertySizeMismatch(expected, actual, _) =>
      "property size does not match. expected field count = [" + IntToString(expected) + "],"
        + " actual field count = [" + IntToString(actual) + "]."
    case UnsupportedWrite => "unsupported write method."
    case UnsupportedRead => "unsupported read method."
    case BufferOverflow => ""
    case NegativeCapacity => ""
    case IndexOutOfRange => ""
    case IllegalRange => ""
    case NotText => ""
    case NullReference(_) => ""
  }
}
