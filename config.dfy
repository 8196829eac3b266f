/**
 * The fixed-length configuration values: field definitions (FieldConfig),
 * the converter attached to each field, the values fields decode to and
 * encode from, the whole-file configuration (FixedLengthDataBindConfig with
 * its MultiLayoutConfig), and the ordering of field definitions by offset
 * (FieldConfigComparator used through the stable Collections.sort).
 */
module Config {
  import opened Results
  import opened Charsets

  /** The field converters of the converter package; the pad and fill chars are their parameters. */
  datatype Converter = Default | Rpad(padChar: char) | Lpad(padChar: char) | Binary | Filler(fillChar: char)

  /** The pad char an Rpad annotation uses when none is given. */
  const RPAD_DEFAULT_PAD: char := ' '

  /** The pad char an Lpad annotation uses when none is given. */
  const LPAD_DEFAULT_PAD: char := '0'

  /** One field of a record: name, 1-based offset, length in bytes and converter. */
  datatype FieldConfig = FieldConfig(name: string, offset: int, length: int, converter: Converter)

  /** The name given to synthesized gap fields. */
  const FILLER_FIELD_NAME: string := "filler"

  /** The record name of a single-layout configuration. */
  const SINGLE_LAYOUT_RECORD_NAME: string := "single"

  /** A value a field decodes to or is encoded from; `Null` is Java's null. */
  datatype Value =
    | Null
    | Text(text: string)
    | Bytes(bytes: seq<byte>)
    | RecordName(name: string)
    | Fields(fields: map<string, Value>)

  /** MultiLayoutConfig.RecordIdentifier: names the layout of a raw record. */
  type RecordIdentifier = seq<byte> -> string

  /**
   * FixedLengthDataBindConfig: record length, charset, line separator
   * (None is Java's null), fill char, the field list of every record name,
   * and the record identifier when the file is multi-layout.
   */
  datatype FixedLengthConfig = FixedLengthConfig(
    length: int,
    charset: Charset,
    lineSeparator: Option<string>,
    fillChar: char,
    records: map<string, seq<FieldConfig>>,
    identifier: Option<RecordIdentifier>)
  {
    predicate IsMultiLayout()
    {
      identifier.Some?
    }
  }

  // ---------------------------------------------------------------------
  // Ordering by offset
  // ---------------------------------------------------------------------

  predicate SortedByOffset(s: seq<FieldConfig>)
  {
    forall i, j :: 0 <= i < j < |s| ==> s[i].offset <= s[j].offset
  }

  predicate StrictlySortedByOffset(s: seq<FieldConfig>)
  {
    forall i, j :: 0 <= i < j < |s| ==> s[i].offset < s[j].offset
  }

  /** FieldConfigComparator: orders field definitions by offset alone. */
  function CompareByOffset(o1: FieldConfig, o2: FieldConfig): (r: int)
    ensures r < 0 <==> o1.offset < o2.offset
    ensures r == 0 <==> o1.offset == o2.offset
    ensures r > 0 <==> o1.offset > o2.offset
  {
    if o1.offset < o2.offset then -1
    else if o1.offset > o2.offset then 1
    else 0
  }

  /** Inserts `f` into sorted `s` in front of every field the comparator does not put before it. */
  function Insert(f: FieldConfig, s: seq<FieldConfig>): (r: seq<FieldConfig>)
    requires SortedByOffset(s)
    ensures SortedByOffset(r)
    ensures multiset(r) == multiset(s) + multiset{f}
    ensures |r| == |s| + 1
    ensures forall i :: 0 <= i < |r| ==> r[i] == f || r[i] in s
  {
    if s == [] || CompareByOffset(f, s[0]) <= 0 then
      [f] + s
    else
      var rest := Insert(f, s[1..]);
      ConsSorted(s[0], rest);
      ConsMultiset(s, rest, f);
      [s[0]] + rest
  }

  /** A field no later than every field of a sorted list stays sorted in front of it. */
  lemma ConsSorted(x: FieldConfig, rest: seq<FieldConfig>)
    requires SortedByOffset(rest)
    requires forall i :: 0 <= i < |rest| ==> x.offset <= rest[i].offset
    ensures SortedByOffset([x] + rest)
  {
    var r := [x] + rest;
    forall i, j | 0 <= i < j < |r|
      ensures r[i].offset <= r[j].offset
    {
      assert r[j] == rest[j - 1];
      if i > 0 {
        assert r[i] == rest[i - 1];
      }
    }
  }

  /** Putting back the head of `s` in front of `f` inserted into its tail gives the elements of `s` and `f`. */
  lemma ConsMultiset(s: seq<FieldConfig>, rest: seq<FieldConfig>, f: FieldConfig)
    requires s != [] && multiset(rest) == multiset(s[1..]) + multiset{f}
    ensures multiset([s[0]] + rest) == multiset(s) + multiset{f}
  {
    assert s == [s[0]] + s[1..];
  }

  /**
   * Collections.sort with FieldConfigComparator: a stable sort by offset.
   * The result is ordered and holds exactly the given fields.
   */
  function SortByOffset(xs: seq<FieldConfig>): (r: seq<FieldConfig>)
    ensures SortedByOffset(r)
    ensures multiset(r) == multiset(xs)
    ensures |r| == |xs|
  {
    if xs == [] then []
    else
      assert xs == [xs[0]] + xs[1..];
      Insert(xs[0], SortByOffset(xs[1..]))
  }

  /** The fields at one offset, in list order. */
  function AtOffset(xs: seq<FieldConfig>, k: int): seq<FieldConfig>
  {
    if xs == [] then [] else (if xs[0].offset == k then [xs[0]] else []) + AtOffset(xs[1..], k)
  }

  lemma AtOffsetCons(x: FieldConfig, t: seq<FieldConfig>, k: int)
    ensures AtOffset([x] + t, k) == (if x.offset == k then [x] else []) + AtOffset(t, k)
  {
    var r := [x] + t;
    assert r[0] == x && r[1..] == t;
  }

  lemma {:induction false} InsertAtOffset(f: FieldConfig, s: seq<FieldConfig>, k: int)
    requires SortedByOffset(s)
    ensures AtOffset(Insert(f, s), k) == (if f.offset == k then [f] else []) + AtOffset(s, k)
  {
    if s == [] || CompareByOffset(f, s[0]) <= 0 {
      AtOffsetCons(f, s, k);
    } else {
      var rest := Insert(f, s[1..]);
      InsertBehind(f, s);
      AtOffsetCons(s[0], rest, k);
      InsertAtOffset(f, s[1..], k);
      var hs := if s[0].offset == k then [s[0]] else [];
      var hf := if f.offset == k then [f] else [];
      var tail := AtOffset(s[1..], k);
      assert hs == [] || hf == [];
      assert hs + (hf + tail) == hf + (hs + tail);
    }
  }

  /** Stability: the sort keeps the relative order of fields with equal offsets. */
  lemma {:induction false} SortStable(xs: seq<FieldConfig>, k: int)
    ensures AtOffset(SortByOffset(xs), k) == AtOffset(xs, k)
  {
    if xs != [] {
      SortStable(xs[1..], k);
      InsertAtOffset(xs[0], SortByOffset(xs[1..]), k);
    }
  }

  /** Sorting a list that is already ordered leaves it as it is. */
  lemma {:induction false} SortOfSorted(xs: seq<FieldConfig>)
    requires SortedByOffset(xs)
    ensures SortByOffset(xs) == xs
  {
    if xs != [] {
      SortOfSorted(xs[1..]);
      assert SortByOffset(xs) == Insert(xs[0], xs[1..]);
    }
  }

  /**
   * An ordered list with the same fields as a strictly ordered one is that
   * list: when offsets are distinct there is only one sorted arrangement.
   */
  lemma {:induction false} SortedUnique(a: seq<FieldConfig>, b: seq<FieldConfig>)
    requires SortedByOffset(a) && StrictlySortedByOffset(b)
    requires multiset(a) == multiset(b)
    ensures a == b
  {
    if a == [] {
      assert |multiset(b)| == 0;
    } else {
      SortedHeads(a, b);
      MultisetTail(a);
      MultisetTail(b);
      SortedUnique(a[1..], b[1..]);
      assert a == [a[0]] + a[1..] && b == [b[0]] + b[1..];
    }
  }

  /** Two such lists start with the same field. */
  lemma SortedHeads(a: seq<FieldConfig>, b: seq<FieldConfig>)
    requires SortedByOffset(a) && StrictlySortedByOffset(b)
    requires multiset(a) == multiset(b) && a != []
    ensures b != [] && a[0] == b[0]
  {
    assert |b| == |multiset(b)| == |multiset(a)| == |a|;
    assert a[0] in multiset(b);
    var j :| 0 <= j < |b| && b[j] == a[0];
    assert b[0] in multiset(a);
    var i :| 0 <= i < |a| && a[i] == b[0];
    assert a[0].offset <= a[i].offset;
    assert b[0].offset <= b[j].offset;
    assert j == 0;
  }

  lemma MultisetTail(s: seq<FieldConfig>)
    requires s != []
    ensures multiset(s[1..]) == multiset(s) - multiset{s[0]}
  {
    assert s == [s[0]] + s[1..];
  }

  /** The fields a user declared: every field not named "filler". */
  function Declared(xs: seq<FieldConfig>): (r: seq<FieldConfig>)
    ensures |r| <= |xs|
    ensures forall i :: 0 <= i < |r| ==> r[i] in xs && r[i].name != FILLER_FIELD_NAME
    ensures SortedByOffset(xs) ==> SortedByOffset(r)
  {
    if xs == [] then []
    else
      var rest := Declared(xs[1..]);
      assert forall i :: 0 <= i < |rest| ==> rest[i] in xs[1..];
      if xs[0].name != FILLER_FIELD_NAME then [xs[0]] + rest else rest
  }

  lemma {:induction false} InsertDeclared(f: FieldConfig, s: seq<FieldConfig>)
    requires SortedByOffset(s)
    ensures Declared(Insert(f, s)) == if f.name != FILLER_FIELD_NAME then Insert(f, Declared(s)) else Declared(s)
  {
    if s == [] || CompareByOffset(f, s[0]) <= 0 {
      InsertDeclaredInFront(f, s);
    } else {
      InsertDeclared(f, s[1..]);
      InsertDeclaredBehind(f, s);
    }
  }

  lemma InsertDeclaredInFront(f: FieldConfig, s: seq<FieldConfig>)
    requires SortedByOffset(s)
    requires s == [] || f.offset <= s[0].offset
    ensures Declared(Insert(f, s)) == if f.name != FILLER_FIELD_NAME then Insert(f, Declared(s)) else Declared(s)
  {
    var d := Declared(s);
    DeclaredCons(f, s);
    if f.name != FILLER_FIELD_NAME && d != [] {
      assert d[0] in s;
      var j :| 0 <= j < |s| && s[j] == d[0];
      assert s[0].offset <= s[j].offset;
    }
  }

  /** Declared of a list with a head: the head is kept unless it is a filler. */
  lemma DeclaredCons(x: FieldConfig, t: seq<FieldConfig>)
    ensures Declared([x] + t) == (if x.name != FILLER_FIELD_NAME then [x] else []) + Declared(t)
  {
    var r := [x] + t;
    assert r[0] == x && r[1..] == t;
  }

  /** A field ordered after the head is inserted behind it. */
  lemma InsertBehind(f: FieldConfig, s: seq<FieldConfig>)
    requires SortedByOffset(s) && s != [] && f.offset > s[0].offset
    ensures Insert(f, s) == [s[0]] + Insert(f, s[1..])
  {
  }

  lemma InsertDeclaredBehind(f: FieldConfig, s: seq<FieldConfig>)
    requires SortedByOffset(s) && s != [] && f.offset > s[0].offset
    requires Declared(Insert(f, s[1..])) == if f.name != FILLER_FIELD_NAME then Insert(f, Declared(s[1..])) else Declared(s[1..])
    ensures Declared(Insert(f, s)) == if f.name != FILLER_FIELD_NAME then Insert(f, Declared(s)) else Declared(s)
  {
    var rest := Insert(f, s[1..]);
    var d' := Declared(s[1..]);
    InsertBehind(f, s);
    DeclaredCons(s[0], rest);
    assert Declared(s) == (if s[0].name != FILLER_FIELD_NAME then [s[0]] else []) + d';
    if f.name == FILLER_FIELD_NAME {
    } else if s[0].name == FILLER_FIELD_NAME {
      assert [] + Insert(f, d') == Insert(f, d');
    } else {
      InsertBehindCons(f, s[0], d');
    }
  }

  /** InsertBehind for a list given as its head and its tail. */
  lemma InsertBehindCons(f: FieldConfig, x: FieldConfig, t: seq<FieldConfig>)
    requires SortedByOffset([x] + t) && f.offset > x.offset
    ensures SortedByOffset(t)
    ensures Insert(f, [x] + t) == [x] + Insert(f, t)
  {
    var d := [x] + t;
    assert d[0] == x && d[1..] == t;
    InsertBehind(f, d);
  }

  /** Removing the fillers and sorting may be done in either order. */
  lemma {:induction false} SortDeclared(xs: seq<FieldConfig>)
    ensures Declared(SortByOffset(xs)) == SortByOffset(Declared(xs))
  {
    if xs != [] {
      SortDeclared(xs[1..]);
      InsertDeclared(xs[0], SortByOffset(xs[1..]));
      if xs[0].name != FILLER_FIELD_NAME {
        var d := Declared(xs);
        assert d == [xs[0]] + Declared(xs[1..]);
        assert d[0] == xs[0] && d[1..] == Declared(xs[1..]);
      }
    }
  }

  /** Declared fields are unaffected when no field is named "filler". */
  lemma {:induction false} DeclaredOfNoFillers(xs: seq<FieldConfig>)
    requires forall i :: 0 <= i < |xs| ==> xs[i].name != FILLER_FIELD_NAME
    ensures Declared(xs) == xs
  {
    if xs != [] {
      DeclaredOfNoFillers(xs[1..]);
    }
  }

  /** A list of fillers only has no declared field. */
  lemma {:induction false} DeclaredOfFillersOnly(xs: seq<FieldConfig>)
    requires forall i :: 0 <= i < |xs| ==> xs[i].name == FILLER_FIELD_NAME
    ensures Declared(xs) == []
  {
    if xs != [] {
      DeclaredOfFillersOnly(xs[1..]);
    }
  }

  lemma {:induction false} DeclaredAppend(xs: seq<FieldConfig>, ys: seq<FieldConfig>)
    ensures Declared(xs + ys) == Declared(xs) + Declared(ys)
  {
    if xs == [] {
      assert xs + ys == ys;
    } else {
      assert (xs + ys)[0] == xs[0] && (xs + ys)[1..] == xs[1..] + ys;
      DeclaredAppend(xs[1..], ys);
    }
  }
}
