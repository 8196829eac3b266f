/**
 * The field converters: DefaultConverter, Rpad, Lpad, Binary and
 * FillerConverter. Each one turns the bytes of one field into a value
 * (convertOfRead) and a value into the bytes of one field (convertOfWrite).
 *
 * Every conversion has a specification function, and the converters whose
 * Java code loops (the two pads and the filler) also have a method that
 * follows that loop over a ByteBuffer and is proved equal to it.
 */
module Converters {
  import opened Results
  import opened Charsets
  import opened Config
  import opened Buffers

  // ---------------------------------------------------------------------
  // Arithmetic and repetition
  // ---------------------------------------------------------------------

  /** Euclidean quotient and remainder are the unique ones. */
  lemma DivModOf(n: int, d: int, q: int, m: int)
    requires d > 0 && 0 <= m < d && n == q * d + m
    ensures n / d == q && n % d == m
  {
    var q', m' := n / d, n % d;
    assert n == q' * d + m' && 0 <= m' < d;
    assert (q - q') * d == m' - m;
    if q > q' {
      MulAtLeast(q - q', d);
    } else if q < q' {
      MulAtLeast(q' - q, d);
    }
  }

  lemma MulAtLeast(a: int, d: int)
    requires a >= 1 && d > 0
    ensures a * d >= d
  {
  }

  /** The number of `d`-sized steps needed to cover `n`, rounded up. */
  function CeilDiv(n: int, d: int): (c: int)
    requires n > 0 && d > 0
    ensures c >= 1 && c * d >= n && (c - 1) * d < n
  {
    var c := (n + d - 1) / d;
    var m := (n + d - 1) % d;
    assert n + d - 1 == c * d + m;
    c
  }

  lemma CeilDivOf(n: int, d: int, c: int)
    requires n > 0 && d > 0 && c >= 1
    requires c * d >= n && (c - 1) * d < n
    ensures CeilDiv(n, d) == c
  {
    DivModOf(n + d - 1, d, c, n + d - 1 - c * d);
  }

  /** `k` copies of `unit`, back to back. */
  function Repeat(unit: seq<byte>, k: nat): (r: seq<byte>)
    ensures |r| == k * |unit|
  {
    if k == 0 then [] else Repeat(unit, k - 1) + unit
  }

  lemma {:induction false} RepeatSingle(b: byte, k: nat)
    ensures Repeat([b], k) == seq(k, _ => b)
  {
    if k > 0 {
      RepeatSingle(b, k - 1);
      assert seq(k, _ => b) == seq(k - 1, _ => b) + [b];
    }
  }

  /** The byte Latin1 writes for a char; one byte per char. */
  lemma Latin1EncodeOne(c: char)
    ensures Encode(Latin1, [c]) == [EncodeChar(Latin1, c)[0]]
  {
    Latin1EncodeAt([c], 0);
  }

  /** Under Latin1, `n` copies of a char encode to `n` copies of its byte. */
  lemma Latin1EncodePadding(c: char, n: nat)
    ensures Encode(Latin1, seq(n, _ => c)) == Repeat(Encode(Latin1, [c]), n)
  {
    Latin1EncodeOne(c);
    Latin1EncodeRepeat(c, n);
    RepeatSingle(EncodeChar(Latin1, c)[0], n);
  }

  // ---------------------------------------------------------------------
  // Trimming (the read side of Rpad and Lpad)
  // ---------------------------------------------------------------------

  /** `s` without its maximal trailing run of `pad`. */
  function TrimEnd(s: string, pad: char): (r: string)
    ensures |r| <= |s|
    ensures r == [] || r[|r| - 1] != pad
    decreases |s|
  {
    if s != [] && s[|s| - 1] == pad then TrimEnd(s[..|s| - 1], pad) else s
  }

  /** `s` without its maximal leading run of `pad`. */
  function TrimStart(s: string, pad: char): (r: string)
    ensures |r| <= |s|
    ensures r == [] || r[0] != pad
    decreases |s|
  {
    if s != [] && s[0] == pad then TrimStart(s[1..], pad) else s
  }

  /** What TrimEnd removes is a run of pad chars at the end. */
  lemma {:induction false} TrimEndShape(s: string, pad: char)
    ensures s == TrimEnd(s, pad) + seq(|s| - |TrimEnd(s, pad)|, _ => pad)
    decreases |s|
  {
    if s != [] && s[|s| - 1] == pad {
      var init := s[..|s| - 1];
      TrimEndShape(init, pad);
      var r := TrimEnd(init, pad);
      assert s == init + [pad];
      assert seq(|s| - |r|, _ => pad) == seq(|init| - |r|, _ => pad) + [pad];
    } else {
      assert s == s + seq(0, _ => pad);
    }
  }

  /** What TrimStart removes is a run of pad chars at the start. */
  lemma {:induction false} TrimStartShape(s: string, pad: char)
    ensures s == seq(|s| - |TrimStart(s, pad)|, _ => pad) + TrimStart(s, pad)
    decreases |s|
  {
    if s != [] && s[0] == pad {
      var tail := s[1..];
      TrimStartShape(tail, pad);
      var r := TrimStart(tail, pad);
      assert s == [pad] + tail;
      assert seq(|s| - |r|, _ => pad) == [pad] + seq(|tail| - |r|, _ => pad);
    } else {
      assert s == seq(0, _ => pad) + s;
    }
  }

  /** Trimming a padded string gives back the string when it did not end in the pad char. */
  lemma {:induction false} TrimEndPadded(t: string, pad: char, n: nat)
    requires t == [] || t[|t| - 1] != pad
    ensures TrimEnd(t + seq(n, _ => pad), pad) == t
  {
    var s := t + seq(n, _ => pad);
    if n == 0 {
      assert s == t;
    } else {
      assert s[|s| - 1] == pad;
      assert s[..|s| - 1] == t + seq(n - 1, _ => pad);
      TrimEndPadded(t, pad, n - 1);
    }
  }

  /** Trimming a padded string gives back the string when it did not start with the pad char. */
  lemma {:induction false} TrimStartPadded(t: string, pad: char, n: nat)
    requires t == [] || t[0] != pad
    ensures TrimStart(seq(n, _ => pad) + t, pad) == t
  {
    var s := seq(n, _ => pad) + t;
    if n == 0 {
      assert s == t;
    } else {
      assert s[0] == pad;
      assert s[1..] == seq(n - 1, _ => pad) + t;
      TrimStartPadded(t, pad, n - 1);
    }
  }

  /** Rpad.RpadConverter.convertOfRead: decode, then scan back over the pad chars. */
  method RpadConvertOfRead(cs: Charset, pad: char, input: seq<byte>) returns (r: string)
    ensures r == TrimEnd(Decode(cs, input), pad)
  {
    var value := Decode(cs, input);
    var chopPos := |value| - 1;
    assert value[..chopPos + 1] == value;
    while chopPos >= 0 && value[chopPos] == pad
      invariant -1 <= chopPos < |value|
      invariant TrimEnd(value[..chopPos + 1], pad) == TrimEnd(value, pad)
    {
      assert value[..chopPos + 1][..chopPos] == value[..chopPos];
      chopPos := chopPos - 1;
    }
    r := value[..chopPos + 1];
  }

  /** Lpad.LpadConverter.convertOfRead: decode, then skip the leading pad chars. */
  method LpadConvertOfRead(cs: Charset, pad: char, input: seq<byte>) returns (r: string)
    ensures r == TrimStart(Decode(cs, input), pad)
  {
    var value := Decode(cs, input);
    var charPos := 0;
    while charPos < |value| && value[charPos] == pad
      invariant 0 <= charPos <= |value|
      invariant TrimStart(value[charPos..], pad) == TrimStart(value, pad)
    {
      assert value[charPos..][1..] == value[charPos + 1..];
      charPos := charPos + 1;
    }
    r := value[charPos..];
  }

  // ---------------------------------------------------------------------
  // The write side of each converter
  // ---------------------------------------------------------------------

  /**
   * Rpad.RpadConverter.convertOfWrite: the encoded value followed by as
   * many whole pad chars as reach the field length. A value longer than
   * the field overflows the buffer at the first put; a pad char that does
   * not fit in the room left is reported with the length the buffer would
   * have reached.
   */
  function RpadWrite(cs: Charset, field: FieldConfig, pad: char, output: Value): (r: Result<seq<byte>>)
    ensures r.Ok? ==> output.Text? && |r.value| == field.length && Encode(cs, output.text) <= r.value
    ensures output.Text? && 0 <= field.length < |Encode(cs, output.text)| ==> r == Err(BufferOverflow)
    ensures cs.Latin1? && output.Text? && 0 <= |output.text| <= field.length ==> r.Ok?
  {
    var padBytes := Encode(cs, [pad]);
    if !(output.Null? || output.Text?) then Err(NotText)
    else if field.length < 0 then Err(NegativeCapacity)
    else if output.Null? then Err(NullReference("output"))
    else
      var bytes := Encode(cs, output.text);
      if |bytes| > field.length then Err(BufferOverflow)
      else
        var room := field.length - |bytes|;
        var k := room / |padBytes|;
        if room % |padBytes| == 0 then Ok(bytes + Repeat(padBytes, k))
        else Err(PaddingLengthInvalid(field.length, |bytes| + k * |padBytes| + |padBytes|, field.name, output.text, pad))
  }

  /**
   * Lpad.LpadConverter.convertOfWrite: whole pad chars until the position
   * reaches the field length less the value's bytes, then the value. A pad
   * char that overflows the buffer is not caught; a value that does not
   * fit after the padding is reported with the length it would reach.
   */
  function LpadWrite(cs: Charset, field: FieldConfig, pad: char, output: Value): (r: Result<seq<byte>>)
    ensures r.Ok? ==> output.Text? && |r.value| == field.length
    ensures r.Ok? ==> (|Encode(cs, output.text)| <= field.length
      && r.value[field.length - |Encode(cs, output.text)|..] == Encode(cs, output.text))
    ensures output.Text? && 0 <= field.length < |Encode(cs, output.text)| ==>
      r == Err(PaddingLengthInvalid(field.length, |Encode(cs, output.text)|, field.name, output.text, pad))
    ensures cs.Latin1? && output.Text? && 0 <= |output.text| <= field.length ==> r.Ok?
  {
    var padBytes := Encode(cs, [pad]);
    if !(output.Null? || output.Text?) then Err(NotText)
    else if field.length < 0 then Err(NegativeCapacity)
    else if output.Null? then Err(NullReference("output"))
    else
      var value := Encode(cs, output.text);
      var room := field.length - |value|;
      var count := if room <= 0 then 0 else CeilDiv(room, |padBytes|);
      if count * |padBytes| > field.length then Err(BufferOverflow)
      else if count * |padBytes| + |value| > field.length then
        Err(PaddingLengthInvalid(field.length, count * |padBytes| + |value|, field.name, output.text, pad))
      else Ok(Repeat(padBytes, count) + value)
  }

  /**
   * FillerConverter.convertOfWrite: the fill char repeated over the whole
   * field, whatever the value; a fill char whose bytes do not divide the
   * length overflows the buffer at the last put.
   */
  function FillerWrite(cs: Charset, field: FieldConfig, fillChar: char): (r: Result<seq<byte>>)
    ensures field.length < 0 ==> r == Err(NegativeCapacity)
    ensures field.length >= 0 ==> (r.Ok? <==> field.length % |Encode(cs, [fillChar])| == 0)
    ensures r.Err? && field.length >= 0 ==> r.error == BufferOverflow
    ensures r.Ok? ==> |r.value| == field.length
    ensures cs.Latin1? ==> (r.Ok? <==> field.length >= 0)
  {
    var fill := Encode(cs, [fillChar]);
    if field.length < 0 then Err(NegativeCapacity)
    else if field.length % |fill| == 0 then Ok(Repeat(fill, field.length / |fill|))
    else Err(BufferOverflow)
  }

  /** The text DefaultConverter writes: null becomes "", a string is itself. */
  function DefaultText(output: Value): Option<string>
  {
    match output
    case Null => Some("")
    case Text(s) => Some(s)
    case _ => None
  }

  /**
   * DefaultConverter.convertOfWrite: the encoded text, which must have
   * exactly as many chars as the field is long.
   */
  function DefaultWrite(cs: Charset, field: FieldConfig, output: Value): (r: Result<seq<byte>>)
    ensures r.Ok? <==> DefaultText(output).Some? && |DefaultText(output).value| == field.length
    ensures r.Ok? && cs.Latin1? ==> |r.value| == field.length
    ensures r.Ok? ==> |r.value| >= field.length
  {
    match DefaultText(output)
    case None => Err(NotText)
    case Some(value) =>
      if |value| != field.length then Err(TextLengthInvalid(field.length, |value|, field.name, value))
      else Ok(Encode(cs, value))
  }

  /** BinaryConverter.convertOfWrite: a byte array of exactly the field length, unchanged. */
  function BinaryWrite(field: FieldConfig, output: Value): (r: Result<seq<byte>>)
    ensures r.Ok? <==> output.Bytes? && |output.bytes| == field.length
    ensures r.Ok? ==> r.value == output.bytes
  {
    if !output.Bytes? then Err(BinaryOnly)
    else if |output.bytes| != field.length then Err(BinaryLengthInvalid(field.length, |output.bytes|, field.name))
    else Ok(output.bytes)
  }

  /** convertOfRead of the field's converter. */
  function ConvertOfRead(cs: Charset, converter: Converter, input: seq<byte>): Value
  {
    match converter
    case Default => Text(Decode(cs, input))
    case Rpad(pad) => Text(TrimEnd(Decode(cs, input), pad))
    case Lpad(pad) => Text(TrimStart(Decode(cs, input), pad))
    case Binary => Bytes(input)
    case Filler(_) => Text(Decode(cs, input))
  }

  /**
   * What each converter reads: Binary hands the bytes back unchanged; the
   * others decode them, Rpad dropping the whole run of pad chars at the end
   * and Lpad the whole run at the start.
   */
  lemma ConvertOfReadSpec(cs: Charset, converter: Converter, input: seq<byte>)
    ensures var r := ConvertOfRead(cs, converter, input);
      converter.Binary? ==> r == Bytes(input)
    ensures var r := ConvertOfRead(cs, converter, input);
      converter.Default? || converter.Filler? ==> r == Text(Decode(cs, input))
    ensures var r, d := ConvertOfRead(cs, converter, input), Decode(cs, input);
      converter.Rpad? ==>
        (r.Text? && |r.text| <= |d| && d == r.text + seq(|d| - |r.text|, _ => converter.padChar)
         && (r.text == [] || r.text[|r.text| - 1] != converter.padChar))
    ensures var r, d := ConvertOfRead(cs, converter, input), Decode(cs, input);
      converter.Lpad? ==>
        (r.Text? && |r.text| <= |d| && d == seq(|d| - |r.text|, _ => converter.padChar) + r.text
         && (r.text == [] || r.text[0] != converter.padChar))
  {
    match converter
    case Rpad(pad) => TrimEndShape(Decode(cs, input), pad);
    case Lpad(pad) => TrimStartShape(Decode(cs, input), pad);
    case _ =>
  }

  /** convertOfWrite of the field's converter. */
  function ConvertOfWrite(cs: Charset, field: FieldConfig, output: Value): (r: Result<seq<byte>>)
    ensures r.Ok? && !field.converter.Default? ==> |r.value| == field.length
    ensures r.Ok? && cs.Latin1? ==> |r.value| == field.length
  {
    match field.converter
    case Default => DefaultWrite(cs, field, output)
    case Rpad(pad) => RpadWrite(cs, field, pad, output)
    case Lpad(pad) => LpadWrite(cs, field, pad, output)
    case Binary => BinaryWrite(field, output)
    case Filler(fillChar) => FillerWrite(cs, field, fillChar)
  }

  // ---------------------------------------------------------------------
  // The loops of the write side
  // ---------------------------------------------------------------------

  /** Rpad succeeds when whole pad chars fill the room after the value exactly. */
  lemma RpadWriteFits(cs: Charset, field: FieldConfig, pad: char, s: string, k: nat)
    requires |Encode(cs, s)| + k * |Encode(cs, [pad])| == field.length
    ensures RpadWrite(cs, field, pad, Text(s)) == Ok(Encode(cs, s) + Repeat(Encode(cs, [pad]), k))
  {
    DivModOf(field.length - |Encode(cs, s)|, |Encode(cs, [pad])|, k, 0);
  }

  /** Rpad fails on the first pad char that would run past the field. */
  lemma RpadWriteOverflows(cs: Charset, field: FieldConfig, pad: char, s: string, k: nat)
    requires |Encode(cs, s)| + k * |Encode(cs, [pad])| < field.length
    requires field.length < |Encode(cs, s)| + k * |Encode(cs, [pad])| + |Encode(cs, [pad])|
    ensures RpadWrite(cs, field, pad, Text(s)) == Err(PaddingLengthInvalid(field.length,
      |Encode(cs, s)| + k * |Encode(cs, [pad])| + |Encode(cs, [pad])|, field.name, s, pad))
  {
    var position := |Encode(cs, s)| + k * |Encode(cs, [pad])|;
    DivModOf(field.length - |Encode(cs, s)|, |Encode(cs, [pad])|, k, field.length - position);
  }

  /**
   * The padding loop of Rpad: puts `unit` until the buffer is full (true)
   * or the next copy no longer fits (false), after `k` whole copies.
   */
  method PutUntilFull(buffer: ByteBuffer, unit: seq<byte>) returns (ok: bool, k: nat)
    requires buffer.Valid() && |unit| >= 1
    modifies buffer, buffer.data
    ensures buffer.Valid()
    ensures buffer.position == old(buffer.position) + k * |unit|
    ensures buffer.Written() == old(buffer.Written()) + Repeat(unit, k)
    ensures ok ==> buffer.position == buffer.data.Length
    ensures !ok ==> buffer.position < buffer.data.Length < buffer.position + |unit|
  {
    ghost var start := buffer.Written();
    k := 0;
    ok := true;
    while buffer.position < buffer.data.Length
      invariant buffer.Valid()
      invariant buffer.position == old(buffer.position) + k * |unit|
      invariant buffer.Written() == start + Repeat(unit, k)
      decreases buffer.data.Length - buffer.position
    {
      var put := buffer.Put(unit);
      if !put {
        return false, k;
      }
      k := k + 1;
    }
  }

  /** Rpad.RpadConverter.convertOfWrite: the value, then pad chars until the buffer is full. */
  method RpadConvertOfWrite(cs: Charset, field: FieldConfig, pad: char, output: Value) returns (r: Result<seq<byte>>)
    ensures r == RpadWrite(cs, field, pad, output)
  {
    var padBytes := Encode(cs, [pad]);
    if !(output.Null? || output.Text?) {
      return Err(NotText);
    }
    if field.length < 0 {
      return Err(NegativeCapacity);
    }
    if output.Null? {
      return Err(NullReference("output"));
    }
    var text := output.text;
    assert output == Text(text);
    var buffer := new ByteBuffer(field.length);
    var bytes := Encode(cs, text);
    var ok := buffer.Put(bytes);
    if !ok {
      return Err(BufferOverflow);
    }
    assert buffer.Written() == bytes;
    var k;
    ok, k := PutUntilFull(buffer, padBytes);
    if !ok {
      RpadWriteOverflows(cs, field, pad, text, k);
      return Err(PaddingLengthInvalid(field.length, buffer.position + |padBytes|, field.name, text, pad));
    }
    RpadWriteFits(cs, field, pad, text, k);
    assert buffer.data[..] == buffer.Written();
    return Ok(buffer.data[..]);
  }

  /** Lpad fails, uncaught, on a pad char that runs past the field before the value's place is reached. */
  lemma LpadWritePadOverflows(cs: Charset, field: FieldConfig, pad: char, s: string, count: nat)
    requires field.length >= 0
    requires count * |Encode(cs, [pad])| < field.length - |Encode(cs, s)|
    requires count * |Encode(cs, [pad])| + |Encode(cs, [pad])| > field.length
    ensures LpadWrite(cs, field, pad, Text(s)) == Err(BufferOverflow)
  {
    PadOverflowArith(|Encode(cs, [pad])|, field.length - |Encode(cs, s)|, field.length, count);
    LpadWriteOverflowBranch(cs, field, pad, s);
  }

  /** The pad count Lpad computes reaches past the field when `count` copies fit before the value but one more does not. */
  lemma PadOverflowArith(d: int, room: int, length: int, count: nat)
    requires d > 0 && count * d < room && count * d + d > length
    ensures room > 0 && CeilDiv(room, d) * d > length
  {
    MulMonotone(0, count, d);
    var c := CeilDiv(room, d);
    if count >= c {
      MulMonotone(c, count, d);
      assert false;
    }
    MulMonotone(count + 1, c, d);
    assert (count + 1) * d == count * d + d;
  }

  /** Lpad overflows its buffer exactly when the pad count it computes reaches past the field. */
  lemma LpadWriteOverflowBranch(cs: Charset, field: FieldConfig, pad: char, s: string)
    requires field.length >= 0 && |Encode(cs, [pad])| > 0 && field.length > |Encode(cs, s)|
    requires CeilDiv(field.length - |Encode(cs, s)|, |Encode(cs, [pad])|) * |Encode(cs, [pad])| > field.length
    ensures LpadWrite(cs, field, pad, Text(s)) == Err(BufferOverflow)
  {
  }

  /** Once the padding has reached the value's place, Lpad's outcome is the put of the value. */
  lemma LpadWriteAfterPadding(cs: Charset, field: FieldConfig, pad: char, s: string, count: nat)
    requires field.length >= 0
    requires count * |Encode(cs, [pad])| <= field.length
    requires count * |Encode(cs, [pad])| >= field.length - |Encode(cs, s)|
    requires count == 0 || count * |Encode(cs, [pad])| - |Encode(cs, [pad])| < field.length - |Encode(cs, s)|
    ensures var position := count * |Encode(cs, [pad])| + |Encode(cs, s)|;
      LpadWrite(cs, field, pad, Text(s)) ==
        if position > field.length
        then Err(PaddingLengthInvalid(field.length, position, field.name, s, pad))
        else Ok(Repeat(Encode(cs, [pad]), count) + Encode(cs, s))
  {
    PadCountArith(|Encode(cs, [pad])|, field.length - |Encode(cs, s)|, count);
    LpadWriteCountBranch(cs, field, pad, s, count);
  }

  /** `count` is the pad count Lpad computes when it covers the room in front of the value and one fewer does not. */
  lemma PadCountArith(d: int, room: int, count: nat)
    requires d > 0 && count * d >= room
    requires count == 0 || count * d - d < room
    ensures (if room <= 0 then 0 else CeilDiv(room, d)) == count
  {
    if room > 0 {
      assert count != 0;
      CeilDivOf(room, d, count);
    } else if count != 0 {
      MulAtLeast(count, d);
      assert false;
    }
  }

  /** With the pad count Lpad computes in front of the value, its outcome is the put of the value after the padding. */
  lemma LpadWriteCountBranch(cs: Charset, field: FieldConfig, pad: char, s: string, count: nat)
    requires field.length >= 0 && |Encode(cs, [pad])| > 0
    requires count * |Encode(cs, [pad])| <= field.length
    requires (if field.length - |Encode(cs, s)| <= 0 then 0
      else CeilDiv(field.length - |Encode(cs, s)|, |Encode(cs, [pad])|)) == count
    ensures var position := count * |Encode(cs, [pad])| + |Encode(cs, s)|;
      LpadWrite(cs, field, pad, Text(s)) ==
        if position > field.length
        then Err(PaddingLengthInvalid(field.length, position, field.name, s, pad))
        else Ok(Repeat(Encode(cs, [pad]), count) + Encode(cs, s))
  {
  }

  lemma MulMonotone(a: int, b: int, d: int)
    requires a <= b && d > 0
    ensures a * d <= b * d
  {
  }

  /** Lpad.LpadConverter.convertOfWrite, putting pad chars while they stay in front of the value. */
  method LpadConvertOfWrite(cs: Charset, field: FieldConfig, pad: char, output: Value) returns (r: Result<seq<byte>>)
    ensures r == LpadWrite(cs, field, pad, output)
  {
    var padBytes := Encode(cs, [pad]);
    if !(output.Null? || output.Text?) {
      return Err(NotText);
    }
    if field.length < 0 {
      return Err(NegativeCapacity);
    }
    if output.Null? {
      return Err(NullReference("output"));
    }
    var text := output.text;
    assert output == Text(text);
    var buffer := new ByteBuffer(field.length);
    var value := Encode(cs, text);
    var count, ok := PutPadding(buffer, padBytes, field.length - |value|);
    if !ok {
      LpadWritePadOverflows(cs, field, pad, text, count);
      return Err(BufferOverflow);
    }
    LpadWriteAfterPadding(cs, field, pad, text, count);
    var padding := buffer.Written();
    ok := buffer.Put(value);
    if !ok {
      return Err(PaddingLengthInvalid(field.length, buffer.position + |value|, field.name, text, pad));
    }
    assert buffer.data[..] == padding + value;
    return Ok(buffer.data[..]);
  }

  /**
   * Lpad's padding loop: puts `padBytes` while the position is short of
   * `limit`, the place where the value starts; `ok` is false when a put
   * overflows the buffer, and then `count` copies fit but one more does not.
   */
  method PutPadding(buffer: ByteBuffer, padBytes: seq<byte>, limit: int) returns (count: nat, ok: bool)
    requires buffer.Valid() && buffer.position == 0 && |padBytes| > 0
    modifies buffer, buffer.data
    ensures buffer.Valid()
    ensures buffer.Written() == Repeat(padBytes, count) && buffer.position == count * |padBytes|
    ensures ok ==> buffer.position >= limit && (count == 0 || buffer.position - |padBytes| < limit)
    ensures !ok ==> buffer.position < limit && buffer.position + |padBytes| > buffer.data.Length
  {
    count := 0;
    while buffer.position < limit
      invariant buffer.Valid()
      invariant buffer.Written() == Repeat(padBytes, count)
      invariant buffer.position == count * |padBytes|
      invariant count == 0 || buffer.position - |padBytes| < limit
      decreases limit - buffer.position
    {
      ok := buffer.Put(padBytes);
      if !ok {
        return;
      }
      count := count + 1;
    }
    ok := true;
  }

  /** FillerConverter.convertOfWrite, putting the fill char until the buffer is full. */
  method FillerConvertOfWrite(cs: Charset, field: FieldConfig, fillChar: char, output: Value) returns (r: Result<seq<byte>>)
    ensures r == FillerWrite(cs, field, fillChar)
  {
    var bytes := Encode(cs, [fillChar]);
    if field.length < 0 {
      return Err(NegativeCapacity);
    }
    var buffer := new ByteBuffer(field.length);
    var k := 0;
    while buffer.position < buffer.data.Length
      invariant buffer.Valid() && buffer.data.Length == field.length
      invariant buffer.Written() == Repeat(bytes, k)
      decreases field.length - buffer.position
    {
      var ok := buffer.Put(bytes);
      if !ok {
        DivModOf(field.length, |bytes|, k, field.length - buffer.position);
        return Err(BufferOverflow);
      }
      k := k + 1;
    }
    DivModOf(field.length, |bytes|, k, 0);
    assert buffer.data[..] == buffer.Written();
    return Ok(buffer.data[..]);
  }

  // ---------------------------------------------------------------------
  // Properties
  // ---------------------------------------------------------------------

  /** Under Latin1, Rpad writes the value's bytes and then pad bytes up to the field length. */
  lemma RpadWriteLatin1(field: FieldConfig, pad: char, s: string)
    requires 0 <= |s| <= field.length
    ensures RpadWrite(Latin1, field, pad, Text(s))
      == Ok(Encode(Latin1, s + seq(field.length - |s|, _ => pad)))
  {
    var n := field.length - |s|;
    Latin1EncodeOne(pad);
    RpadWriteFits(Latin1, field, pad, s, n);
    Latin1EncodePadding(pad, n);
    EncodeAppend(Latin1, s, seq(n, _ => pad));
  }

  /** Under Latin1, Lpad writes pad bytes up to the field length less the value, then the value. */
  lemma LpadWriteLatin1(field: FieldConfig, pad: char, s: string)
    requires 0 <= |s| <= field.length
    ensures LpadWrite(Latin1, field, pad, Text(s))
      == Ok(Encode(Latin1, seq(field.length - |s|, _ => pad) + s))
  {
    var n := field.length - |s|;
    Latin1EncodeOne(pad);
    LpadWriteAfterPadding(Latin1, field, pad, s, n);
    Latin1EncodePadding(pad, n);
    EncodeAppend(Latin1, seq(n, _ => pad), s);
  }

  /** Rpad round trip: reading what was written gives the value back. */
  lemma RpadWriteRead(field: FieldConfig, pad: char, s: string)
    requires Representable(s) && IsLatin1Char(pad)
    requires 0 <= |s| <= field.length
    requires s == [] || s[|s| - 1] != pad
    ensures var w := RpadWrite(Latin1, field, pad, Text(s));
      w.Ok? && ConvertOfRead(Latin1, Rpad(pad), w.value) == Text(s)
  {
    var padded := s + seq(field.length - |s|, _ => pad);
    RpadWriteLatin1(field, pad, s);
    assert Representable(padded);
    Latin1DecodeEncode(padded);
    TrimEndPadded(s, pad, field.length - |s|);
  }

  /** Rpad round trip the other way: writing what was read gives the field's bytes back. */
  lemma RpadReadWrite(field: FieldConfig, pad: char, b: seq<byte>)
    requires IsLatin1Char(pad) && |b| == field.length
    ensures RpadWrite(Latin1, field, pad, ConvertOfRead(Latin1, Rpad(pad), b)) == Ok(b)
  {
    var s := Decode(Latin1, b);
    var t := TrimEnd(s, pad);
    TrimEndShape(s, pad);
    RpadWriteLatin1(field, pad, t);
    Latin1EncodeDecode(b);
  }

  /** Lpad round trip: reading what was written gives the value back. */
  lemma LpadWriteRead(field: FieldConfig, pad: char, s: string)
    requires Representable(s) && IsLatin1Char(pad)
    requires 0 <= |s| <= field.length
    requires s == [] || s[0] != pad
    ensures var w := LpadWrite(Latin1, field, pad, Text(s));
      w.Ok? && ConvertOfRead(Latin1, Lpad(pad), w.value) == Text(s)
  {
    var padded := seq(field.length - |s|, _ => pad) + s;
    LpadWriteLatin1(field, pad, s);
    assert Representable(padded);
    Latin1DecodeEncode(padded);
    TrimStartPadded(s, pad, field.length - |s|);
  }

  /** Lpad round trip the other way: writing what was read gives the field's bytes back. */
  lemma LpadReadWrite(field: FieldConfig, pad: char, b: seq<byte>)
    requires IsLatin1Char(pad) && |b| == field.length
    ensures LpadWrite(Latin1, field, pad, ConvertOfRead(Latin1, Lpad(pad), b)) == Ok(b)
  {
    var s := Decode(Latin1, b);
    var t := TrimStart(s, pad);
    TrimStartShape(s, pad);
    LpadWriteLatin1(field, pad, t);
    Latin1EncodeDecode(b);
  }

  /**
   * A two-byte pad char (a full-width space under MS932, say) that leaves
   * an odd number of bytes to fill makes Rpad report one byte too many.
   */
  lemma RpadTwoBytePadOverflow(cs: Charset, field: FieldConfig, pad: char, s: string)
    requires |Encode(cs, [pad])| == 2
    requires |Encode(cs, s)| <= field.length && (field.length - |Encode(cs, s)|) % 2 == 1
    ensures RpadWrite(cs, field, pad, Text(s))
      == Err(PaddingLengthInvalid(field.length, field.length + 1, field.name, s, pad))
  {
    var room := field.length - |Encode(cs, s)|;
    DivModOf(room, 2, room / 2, 1);
  }

  /**
   * A two-byte pad char that leaves an odd number of bytes in front of a
   * non-empty value makes Lpad report one byte too many.
   */
  lemma LpadTwoBytePadOverflow(cs: Charset, field: FieldConfig, pad: char, s: string)
    requires |Encode(cs, [pad])| == 2
    requires 1 <= |Encode(cs, s)| < field.length && (field.length - |Encode(cs, s)|) % 2 == 1
    ensures LpadWrite(cs, field, pad, Text(s))
      == Err(PaddingLengthInvalid(field.length, field.length + 1, field.name, s, pad))
  {
    var room := field.length - |Encode(cs, s)|;
    var c := (room + 1) / 2;
    DivModOf(room, 2, room / 2, 1);
    CeilDivOf(room, 2, c);
  }

  /** Under Latin1 the filler is the fill char's byte, once per byte of the field. */
  lemma FillerWriteLatin1(field: FieldConfig, fillChar: char)
    requires field.length >= 0
    ensures FillerWrite(Latin1, field, fillChar)
      == Ok(seq(field.length, _ => EncodeChar(Latin1, fillChar)[0]))
  {
    Latin1EncodeOne(fillChar);
    DivModOf(field.length, 1, field.length, 0);
    RepeatSingle(EncodeChar(Latin1, fillChar)[0], field.length);
  }

  /** DefaultConverter round trip: a value of the field's length is read back as written. */
  lemma DefaultWriteRead(field: FieldConfig, s: string)
    requires Representable(s) && |s| == field.length
    ensures var w := DefaultWrite(Latin1, field, Text(s));
      w.Ok? && ConvertOfRead(Latin1, Default, w.value) == Text(s)
  {
    Latin1DecodeEncode(s);
  }

  /** DefaultConverter round trip the other way: the field's bytes are written back as read. */
  lemma DefaultReadWrite(field: FieldConfig, b: seq<byte>)
    requires |b| == field.length
    ensures DefaultWrite(Latin1, field, ConvertOfRead(Latin1, Default, b)) == Ok(b)
  {
    Latin1EncodeDecode(b);
  }

  /** Whether a converter is one whose read/write pair is lossless under Latin1. */
  predicate Reversible(converter: Converter)
  {
    match converter
    case Default => true
    case Rpad(pad) => IsLatin1Char(pad)
    case Lpad(pad) => IsLatin1Char(pad)
    case Binary => true
    case Filler(_) => false
  }

  /**
   * Under Latin1, every converter but the filler writes back the bytes it
   * read from a field of the right length.
   */
  lemma ReadWriteRoundTrip(field: FieldConfig, b: seq<byte>)
    requires Reversible(field.converter) && |b| == field.length
    ensures ConvertOfWrite(Latin1, field, ConvertOfRead(Latin1, field.converter, b)) == Ok(b)
  {
    match field.converter
    case Default => DefaultReadWrite(field, b);
    case Rpad(pad) => RpadReadWrite(field, pad, b);
    case Lpad(pad) => LpadReadWrite(field, pad, b);
    case Binary =>
  }
}
