/** The older record decoder kept in src/page.rs (lines 360-442): four value
    kinds only, a different column decoder over the same header/body walk,
    and the `Display` text that the schema lookups compare names with. */
module LegacyRecords {
  import opened Outcomes
  import opened Bytes
  import opened Utils
  import opened Records
  import opened RecordColumns

  /** `enum SerialType` of src/page.rs: the float variant is commented out. */
  datatype LegacyValue =
    | String(utf8: seq<Byte>)
    | Blob(bytes: seq<Byte>)
    | NULL
    | Integer(i: int)

  /** `struct Record` of src/page.rs: the values without their offsets. */
  datatype LegacyRecord = LegacyRecord(columns: seq<LegacyValue>)

  /** One pass of the loop body in src/page.rs (lines 366-393).  Only tags
      1 to 4 reach the integer branch, where 3 hits `unreachable!` before any
      slicing; tags 0 and 5 to 11 (and negative ones) fall into the last
      branch and become NULL of width 0.  Invalid UTF-8 is an error value. */
  function DecodeLegacyColumn(data: seq<Byte>, tag: int, cp: nat): Outcome<Decoded<LegacyValue>> {
    if tag >= 12 && tag % 2 == 0 then
      var w := (tag - 12) / 2;
      var bytes :- Subslice(data, cp, w);
      Ok(Decoded(Blob(bytes), w))
    else if tag >= 13 && tag % 2 != 0 then
      var w := (tag - 13) / 2;
      var bytes :- Subslice(data, cp, w);
      if ValidUtf8(bytes) then Ok(Decoded(String(bytes), w)) else Err(Utf8)
    else if 1 <= tag <= 4 then
      if tag == 3 then Panic(Explicit)
      else
        var bytes :- Subslice(data, cp, tag);
        Ok(Decoded(Integer(ToSigned(BigEndian(bytes), tag)), tag))
    else Ok(Decoded(NULL, 0))
  }

  function Values(cols: seq<Column<LegacyValue>>): (vs: seq<LegacyValue>)
    ensures |vs| == |cols|
    ensures forall i :: 0 <= i < |cols| ==> vs[i] == cols[i].serialType
  {
    if cols == [] then [] else [cols[0].serialType] + Values(cols[1..])
  }

  /** src/page.rs `Record::from`. */
  function LegacyRecordFrom(data: seq<Byte>): Outcome<LegacyRecord> {
    var cols :- WalkRecord(data, DecodeLegacyColumn);
    Ok(LegacyRecord(Values(cols)))
  }

  /** The loop of src/page.rs `Record::from`, run by the shared walk. */
  method DecodeLegacyRecord(data: seq<Byte>) returns (r: Outcome<LegacyRecord>)
    ensures r == LegacyRecordFrom(data)
  {
    var cols := DecodeRecord(data, DecodeLegacyColumn);
    if !cols.Ok? {
      return cols.PropagateFailure();
    }
    r := Ok(LegacyRecord(Values(cols.value)));
  }

  /** What the older decoder makes of each tag. */
  lemma LegacyColumnTable(data: seq<Byte>, tag: int, cp: nat)
    ensures tag == 3 ==> DecodeLegacyColumn(data, tag, cp) == Panic(Explicit)
    ensures tag == 0 || 5 <= tag <= 11 || tag < 0 ==>
              DecodeLegacyColumn(data, tag, cp) == Ok(Decoded(NULL, 0))
    ensures (tag == 1 || tag == 2 || tag == 4) ==>
              if cp + tag <= |data|
              then DecodeLegacyColumn(data, tag, cp)
                   == Ok(Decoded(Integer(ToSigned(BigEndian(data[cp..cp + tag]), tag)), tag))
              else DecodeLegacyColumn(data, tag, cp) == Panic(OutOfRange)
    ensures tag >= 13 && tag % 2 == 1 && cp + (tag - 13) / 2 <= |data| ==>
              DecodeLegacyColumn(data, tag, cp)
              == if ValidUtf8(data[cp..cp + (tag - 13) / 2])
                 then Ok(Decoded(String(data[cp..cp + (tag - 13) / 2]), (tag - 13) / 2))
                 else Err(Utf8)
  {
  }

  /** Where the two decoders both read a column, they read the same thing:
      integers of widths 1, 2 and 4, strings and blobs agree in width and
      value, except that the older one reports invalid UTF-8 as an error
      where the newer one panics. */
  lemma DecodersAgree(data: seq<Byte>, tag: int, cp: nat)
    requires tag == 1 || tag == 2 || tag == 4 || tag >= 12
    ensures DecodeLegacyColumn(data, tag, cp).Ok? <==> DecodeColumn(data, tag, cp).Ok?
    ensures DecodeColumn(data, tag, cp).Ok? ==>
      var d := DecodeColumn(data, tag, cp).value;
      var l := DecodeLegacyColumn(data, tag, cp).value;
      && l.width == d.width
      && (d.value.I8? || d.value.I16? || d.value.I32? ==> l.value == Integer(d.value.i))
      && (d.value.String? ==> l.value == String(d.value.utf8))
      && (d.value.Blob? ==> l.value == Blob(d.value.bytes))
    ensures DecodeColumn(data, tag, cp) == Panic(Unwrap) ==> DecodeLegacyColumn(data, tag, cp) == Err(Utf8)
  {
    if tag >= 13 && tag % 2 == 1 {
      var w := (tag - 13) / 2;
      if cp + w <= |data| {
        assert Subslice(data, cp, w) == Ok(data[cp..cp + w]);
      }
    }
  }

  /** The older decoder reads a 64-bit integer (tag 6) as a NULL of width 0,
      so every later column is read from the wrong offset: here the first
      byte of the integer is taken for the one-byte integer that follows.
      The record.rs decoder reads the same bytes as 7 and 42
      (`Int64ThenInt8`). */
  lemma LegacyMisreadsInt64()
    ensures LegacyRecordFrom(Int64ThenInt8Bytes()) == Ok(LegacyRecord([NULL, Integer(0)]))
  {
    var data := Int64ThenInt8Bytes();
    Int64ThenInt8Header();
    assert data[3..4] == [0x00];
    assert DecodeLegacyColumn(data, 1, 3) == Ok(Decoded(Integer(0), 1));
    assert Walk(data, 3, 4, 3, DecodeLegacyColumn) == Ok([]);
    WalkStep(data, 2, 3, 3, DecodeLegacyColumn);
    assert [Column(3, Integer(0))] + [] == [Column(3, Integer(0))];
    assert Walk(data, 2, 3, 3, DecodeLegacyColumn) == Ok([Column(3, Integer(0))]);
    assert DecodeLegacyColumn(data, 6, 3) == Ok(Decoded(NULL, 0));
    WalkStep(data, 1, 3, 3, DecodeLegacyColumn);
    var legacy := [Column(3, NULL), Column(3, Integer(0))];
    assert [Column(3, NULL)] + [Column(3, Integer(0))] == legacy;
    assert Walk(data, 1, 3, 3, DecodeLegacyColumn) == Ok(legacy);
    assert WalkRecord(data, DecodeLegacyColumn) == Ok(legacy);
    assert Values(legacy) == [NULL, Integer(0)];
  }

  /** A record with a 64-bit integer 7 followed by a one-byte integer 42. */
  function Int64ThenInt8Bytes(): seq<Byte> {
    [0x03, 0x06, 0x01, 0x00, 0x00, 0x00, 0x00, 0x00, 0x00, 0x00, 0x07, 0x2A]
  }

  lemma Int64ThenInt8Header()
    ensures var data := Int64ThenInt8Bytes();
      && ReadVarintSpec(data) == Varint(3, 1)
      && ReadVarintSpec(data[1..]) == Varint(6, 1)
      && ReadVarintSpec(data[2..]) == Varint(1, 1)
      && AsUsize(3) == 3
  {
    var data := Int64ThenInt8Bytes();
    VarintSingleByte(0x03, data[1..]);
    assert data == [0x03] + data[1..];
    VarintSingleByteAt(data, 1);
    VarintSingleByteAt(data, 2);
  }

  /** The record.rs decoder reads the eight bytes at offset 3 as 7 and the
      byte at offset 11 as 42. */
  lemma Int64ThenInt8()
    ensures RecordFrom(Int64ThenInt8Bytes())
            == Ok(Record([Column(3, SerialTypes.I64(7)), Column(11, SerialTypes.I8(42))]))
  {
    var data := Int64ThenInt8Bytes();
    Int64ThenInt8Header();
    var eight: seq<Byte> := [0x00, 0x00, 0x00, 0x00, 0x00, 0x00, 0x00, 0x07];
    assert data[3..11] == eight;
    assert eight[..7] == [0x00, 0x00, 0x00, 0x00, 0x00, 0x00, 0x00];
    ZerosAreZero(eight[..7]);
    assert BigEndian(eight) == 7;
    assert DecodeColumn(data, 6, 3) == Ok(Decoded(SerialTypes.I64(7), 8));
    assert data[11..12] == [0x2A];
    assert DecodeColumn(data, 1, 11) == Ok(Decoded(SerialTypes.I8(42), 1));
    assert Walk(data, 3, 12, 3, DecodeColumn) == Ok([]);
    WalkStep(data, 2, 11, 3, DecodeColumn);
    assert [Column(11, SerialTypes.I8(42))] + [] == [Column(11, SerialTypes.I8(42))];
    assert Walk(data, 2, 11, 3, DecodeColumn) == Ok([Column(11, SerialTypes.I8(42))]);
    WalkStep(data, 1, 3, 3, DecodeColumn);
    var cols := [Column(3, SerialTypes.I64(7)), Column(11, SerialTypes.I8(42))];
    assert [Column(3, SerialTypes.I64(7))] + [Column(11, SerialTypes.I8(42))] == cols;
    assert Walk(data, 1, 3, 3, DecodeColumn) == Ok(cols);
    assert WalkRecord(data, DecodeColumn) == Ok(cols);
  }

  lemma {:induction false} ZerosAreZero(s: seq<Byte>)
    requires forall i :: 0 <= i < |s| ==> s[i] == 0
    ensures BigEndian(s) == 0
  {
    if s != [] {
      ZerosAreZero(s[..|s| - 1]);
    }
  }

  // ---------------------------------------------------------------------
  // `Display` (src/page.rs:433-442), as UTF-8 bytes
  // ---------------------------------------------------------------------

  const DIGIT_ZERO: Byte := 0x30

  predicate IsDigit(b: Byte) {
    0x30 <= b <= 0x39
  }

  /** The decimal digits of `n`, without leading zeros. */
  function DecimalDigits(n: nat): (s: seq<Byte>)
    ensures |s| >= 1
    ensures forall i :: 0 <= i < |s| ==> IsDigit(s[i])
    ensures n > 0 ==> s[0] != DIGIT_ZERO
  {
    if n < 10 then [DIGIT_ZERO + n] else DecimalDigits(n / 10) + [DIGIT_ZERO + n % 10]
  }

  /** Reading decimal digits back. */
  function ParseDecimal(s: seq<Byte>): nat
    requires forall i :: 0 <= i < |s| ==> IsDigit(s[i])
  {
    if s == [] then 0
    else
      assert IsDigit(s[|s| - 1]);
      ParseDecimal(s[..|s| - 1]) * 10 + (s[|s| - 1] - DIGIT_ZERO)
  }

  lemma {:induction false} DecimalRoundTrip(n: nat)
    ensures ParseDecimal(DecimalDigits(n)) == n
  {
    if n >= 10 {
      var s := DecimalDigits(n);
      assert s[..|s| - 1] == DecimalDigits(n / 10);
      DecimalRoundTrip(n / 10);
    }
  }

  /** `{i:?}` of an `i64`: a minus sign for negative values, then the digits. */
  function IntegerText(i: int): seq<Byte> {
    if i < 0 then [0x2D] + DecimalDigits(-i) else DecimalDigits(i)
  }

  /** The elements of a blob in decimal, separated by ", ". */
  function JoinDecimal(b: seq<Byte>): seq<Byte> {
    if b == [] then []
    else if |b| == 1 then DecimalDigits(b[0])
    else DecimalDigits(b[0]) + [0x2C, 0x20] + JoinDecimal(b[1..])
  }

  /** `value.to_string()`: a string as itself, a blob as `{b:?}` of a
      `Vec<u8>` (for example `[1, 2]`), an integer in decimal, NULL as the
      word NULL. */
  function ToText(v: LegacyValue): seq<Byte> {
    match v
    case String(s) => s
    case Blob(b) => [0x5B] + JoinDecimal(b) + [0x5D]
    case Integer(i) => IntegerText(i)
    case NULL => [0x4E, 0x55, 0x4C, 0x4C]
  }

  /** The text of an integer gives the integer back: the sign, then the
      magnitude in decimal. */
  lemma IntegerTextRoundTrip(i: int)
    ensures var t := ToText(Integer(i));
      && |t| >= 1
      && (i < 0 <==> t[0] == 0x2D)
      && (i < 0 ==> (forall k :: 1 <= k < |t| ==> IsDigit(t[k])) && ParseDecimal(t[1..]) == -i)
      && (i >= 0 ==> (forall k :: 0 <= k < |t| ==> IsDigit(t[k])) && ParseDecimal(t) == i)
  {
    var t := ToText(Integer(i));
    if i < 0 {
      assert t[1..] == DecimalDigits(-i);
      DecimalRoundTrip(-i);
    } else {
      DecimalRoundTrip(i);
    }
  }
}
