/** src/record.rs: `Record::from`, which reads a record header of serial-type
    tags and walks the body with a cursor, one column per tag.

    The older copy of the same loop in src/page.rs (lines 360-401) differs
    only in how one tag becomes one value, so the loop is stated once here,
    over a column decoder, and each copy supplies its own decoder
    (`DecodeColumn` below; `LegacyRecords.DecodeLegacyColumn`). */
module Records {
  import opened Outcomes
  import opened Bytes
  import opened Utils
  import opened SerialTypes

  /** One decoded column: where its value starts in the record's buffer, and
      what the loop built from it. */
  datatype Column<V> = Column(offset: nat, serialType: V)

  /** A column value and the number of body bytes it took. */
  datatype Decoded<V> = Decoded(value: V, width: nat)

  /** How one copy of the loop turns (buffer, tag, body cursor) into a value. */
  type ColumnDecoder<V> = (seq<Byte>, int, nat) -> Outcome<Decoded<V>>

  datatype Record = Record(columns: seq<Column<SerialType>>)

  /** `Column::value`: the text of a column, for now always empty. */
  function ColumnValue<V>(c: Column<V>): string {
    ""
  }

  // ---------------------------------------------------------------------
  // The loop
  // ---------------------------------------------------------------------

  /** The loop from the state (tag cursor `tagPos`, body cursor `bodyPos`)
      on: it stops when the tag cursor equals the header size exactly.  Once
      the tag cursor has reached the end of the buffer without that, every
      further `read_variant` sees an empty slice, returns (0, 0), and the
      loop pushes a Null column forever without moving. */
  function Walk<V>(data: seq<Byte>, tagPos: nat, bodyPos: nat, headSize: nat,
                   decode: ColumnDecoder<V>): Outcome<seq<Column<V>>>
    requires tagPos <= |data|
    decreases |data| - tagPos
  {
    if tagPos == headSize then Ok([])
    else if tagPos == |data| then Diverge
    else
      var tag := ReadVarintSpec(data[tagPos..]);
      ReadVarintBounds(data[tagPos..]);
      var column :- decode(data, tag.value, bodyPos);
      var rest :- Walk(data, tagPos + tag.bytesRead, bodyPos + column.width, headSize, decode);
      Ok([Column(bodyPos, column.value)] + rest)
  }

  /** Where the walk starts: the tag cursor right after the header-size
      varint, the body cursor at the header size (an `i64` taken `as usize`). */
  function WalkRecord<V>(data: seq<Byte>, decode: ColumnDecoder<V>): Outcome<seq<Column<V>>> {
    var head := ReadVarintSpec(data);
    var headSize := AsUsize(head.value);
    Walk(data, head.bytesRead, headSize, headSize, decode)
  }

  /** Appends `prefix` in front of a successful outcome. */
  function Prepend<V>(prefix: seq<Column<V>>, o: Outcome<seq<Column<V>>>): Outcome<seq<Column<V>>> {
    if o.Ok? then Ok(prefix + o.value) else o
  }

  /** `Record::from` (src/record.rs:28-117; src/page.rs:360-401): read the
      header size, then run the loop from right after it. */
  method DecodeRecord<V>(data: seq<Byte>, decode: ColumnDecoder<V>)
    returns (r: Outcome<seq<Column<V>>>)
    ensures r == WalkRecord(data, decode)
  {
    var headSizeI64, firstTypeOffset := ReadVarint(data);
    ReadVarintBounds(data);
    var headSize := AsUsize(headSizeI64);
    r := DecodeColumns(data, firstTypeOffset, headSize, headSize, decode);
  }

  /** The while loop of `Record::from`, from the tag cursor `tagPos` and the
      body cursor `bodyPos` on. */
  method DecodeColumns<V>(data: seq<Byte>, tagPos: nat, bodyPos: nat, headSize: nat,
                          decode: ColumnDecoder<V>)
    returns (r: Outcome<seq<Column<V>>>)
    requires tagPos <= |data|
    ensures r == Walk(data, tagPos, bodyPos, headSize, decode)
  {
    var columnPointer: nat := bodyPos;
    var serialTypePointer: nat := tagPos;
    var columns: seq<Column<V>> := [];
    ghost var whole := Walk(data, serialTypePointer, columnPointer, headSize, decode);
    assert whole.Ok? ==> [] + whole.value == whole.value;
    while serialTypePointer != headSize
      invariant serialTypePointer <= |data|
      invariant Prepend(columns, Walk(data, serialTypePointer, columnPointer, headSize, decode)) == whole
      decreases |data| - serialTypePointer
    {
      if serialTypePointer == |data| {
        // read_variant(&[]) is (0, 0): a Null column is pushed and neither
        // cursor moves, so the loop never ends.
        return Diverge;
      }
      var tag, bytesRead := ReadVarint(data[serialTypePointer..]);
      var column := decode(data, tag, columnPointer);
      WalkAdvance(data, serialTypePointer, columnPointer, headSize, decode, columns, whole);
      if !column.Ok? {
        return column.PropagateFailure();
      }
      columns, serialTypePointer, columnPointer :=
        columns + [Column(columnPointer, column.value.value)],
        serialTypePointer + bytesRead, columnPointer + column.value.width;
    }
    assert columns + [] == columns;
    r := Ok(columns);
  }

  /** One turn of the loop. */
  lemma WalkStep<V>(data: seq<Byte>, tagPos: nat, bodyPos: nat, headSize: nat,
                    decode: ColumnDecoder<V>)
    requires tagPos < |data| && tagPos != headSize
    ensures var tag := ReadVarintSpec(data[tagPos..]);
      var column := decode(data, tag.value, bodyPos);
      && tagPos + tag.bytesRead <= |data|
      && (!column.Ok? ==> Walk(data, tagPos, bodyPos, headSize, decode) == column.PropagateFailure())
      && (column.Ok? ==>
            Walk(data, tagPos, bodyPos, headSize, decode)
            == Prepend([Column(bodyPos, column.value.value)],
                       Walk(data, tagPos + tag.bytesRead, bodyPos + column.value.width, headSize, decode)))
  {
    ReadVarintBounds(data[tagPos..]);
  }

  /** One turn of the loop, seen from the columns gathered so far. */
  lemma WalkAdvance<V>(data: seq<Byte>, tagPos: nat, bodyPos: nat, headSize: nat,
                       decode: ColumnDecoder<V>, columns: seq<Column<V>>,
                       whole: Outcome<seq<Column<V>>>)
    requires tagPos < |data| && tagPos != headSize
    requires Prepend(columns, Walk(data, tagPos, bodyPos, headSize, decode)) == whole
    ensures var tag := ReadVarintSpec(data[tagPos..]);
      var column := decode(data, tag.value, bodyPos);
      && tagPos + tag.bytesRead <= |data|
      && (!column.Ok? ==> whole == column.PropagateFailure())
      && (column.Ok? ==>
            Prepend(columns + [Column(bodyPos, column.value.value)],
                    Walk(data, tagPos + tag.bytesRead, bodyPos + column.value.width, headSize, decode))
            == whole)
  {
    WalkStep(data, tagPos, bodyPos, headSize, decode);
    var tag := ReadVarintSpec(data[tagPos..]);
    var column := decode(data, tag.value, bodyPos);
    if column.Ok? {
      PrependTwice(columns, [Column(bodyPos, column.value.value)],
                   Walk(data, tagPos + tag.bytesRead, bodyPos + column.value.width, headSize, decode));
    }
  }

  lemma PrependTwice<V>(a: seq<Column<V>>, b: seq<Column<V>>, o: Outcome<seq<Column<V>>>)
    ensures Prepend(a, Prepend(b, o)) == Prepend(a + b, o)
  {
    if o.Ok? {
      assert a + (b + o.value) == (a + b) + o.value;
    }
  }

  // ---------------------------------------------------------------------
  // The same loop in two phases: first the header, then the body
  // ---------------------------------------------------------------------

  /** The tags whose varints tile [tagPos, headSize) exactly, or None when
      the varints run past the header size or reach the end of the buffer. */
  function HeaderTags(data: seq<Byte>, tagPos: nat, headSize: nat): Option<seq<int>>
    requires tagPos <= |data|
    decreases |data| - tagPos
  {
    if tagPos == headSize then Some([])
    else if tagPos == |data| then None
    else
      var tag := ReadVarintSpec(data[tagPos..]);
      ReadVarintBounds(data[tagPos..]);
      match HeaderTags(data, tagPos + tag.bytesRead, headSize)
      case Some(rest) => Some([tag.value] + rest)
      case None => None
  }

  /** The body decoded for a list of tags, the cursor moving by each width. */
  function Body<V>(data: seq<Byte>, tags: seq<int>, bodyPos: nat, decode: ColumnDecoder<V>)
    : (r: Outcome<seq<Column<V>>>)
    ensures r.Ok? ==> |r.value| == |tags|
    decreases |tags|
  {
    if tags == [] then Ok([])
    else
      var column :- decode(data, tags[0], bodyPos);
      var rest :- Body(data, tags[1..], bodyPos + column.width, decode);
      Ok([Column(bodyPos, column.value)] + rest)
  }

  /** The body for one more tag in front. */
  lemma BodyCons<V>(data: seq<Byte>, tag: int, tags: seq<int>, bodyPos: nat, decode: ColumnDecoder<V>)
    ensures var column := decode(data, tag, bodyPos);
      Body(data, [tag] + tags, bodyPos, decode)
      == if column.Ok?
         then Prepend([Column(bodyPos, column.value.value)],
                      Body(data, tags, bodyPos + column.value.width, decode))
         else column.PropagateFailure()
  {
    assert ([tag] + tags)[1..] == tags;
  }

  /** A successful body: its first column decoded at the cursor, the rest
      decoded after it. */
  lemma BodyHead<V>(data: seq<Byte>, tags: seq<int>, bodyPos: nat, decode: ColumnDecoder<V>)
    requires tags != [] && Body(data, tags, bodyPos, decode).Ok?
    ensures var column := decode(data, tags[0], bodyPos);
      var cols := Body(data, tags, bodyPos, decode).value;
      && column.Ok?
      && Body(data, tags[1..], bodyPos + column.value.width, decode).Ok?
      && cols[0] == Column(bodyPos, column.value.value)
      && cols[1..] == Body(data, tags[1..], bodyPos + column.value.width, decode).value
  {
    var column := decode(data, tags[0], bodyPos).value;
    var rest := Body(data, tags[1..], bodyPos + column.width, decode).value;
    assert ([Column(bodyPos, column.value)] + rest)[1..] == rest;
  }

  /** The interleaved loop succeeds exactly when the header tiles into tags
      and the body decodes for those tags, and then with the same columns:
      one column per tag varint in [first tag offset, header size). */
  lemma WalkIsHeaderThenBody<V>(data: seq<Byte>, tagPos: nat, bodyPos: nat,
                                headSize: nat, decode: ColumnDecoder<V>)
    requires tagPos <= |data|
    ensures Walk(data, tagPos, bodyPos, headSize, decode).Ok? ==>
              HeaderTags(data, tagPos, headSize).Some? &&
              Walk(data, tagPos, bodyPos, headSize, decode)
                == Body(data, HeaderTags(data, tagPos, headSize).value, bodyPos, decode)
    ensures HeaderTags(data, tagPos, headSize).Some? &&
            Body(data, HeaderTags(data, tagPos, headSize).value, bodyPos, decode).Ok? ==>
              Walk(data, tagPos, bodyPos, headSize, decode)
                == Body(data, HeaderTags(data, tagPos, headSize).value, bodyPos, decode)
  {
    if Walk(data, tagPos, bodyPos, headSize, decode).Ok? {
      WalkSplits(data, tagPos, bodyPos, headSize, decode);
    }
    if HeaderTags(data, tagPos, headSize).Some? &&
       Body(data, HeaderTags(data, tagPos, headSize).value, bodyPos, decode).Ok? {
      SplitWalks(data, tagPos, bodyPos, headSize, decode);
    }
  }

  /** A successful walk is a header of tags followed by their body. */
  lemma {:induction false} WalkSplits<V>(data: seq<Byte>, tagPos: nat, bodyPos: nat,
                                         headSize: nat, decode: ColumnDecoder<V>)
    requires tagPos <= |data|
    requires Walk(data, tagPos, bodyPos, headSize, decode).Ok?
    ensures HeaderTags(data, tagPos, headSize).Some?
    ensures Walk(data, tagPos, bodyPos, headSize, decode)
            == Body(data, HeaderTags(data, tagPos, headSize).value, bodyPos, decode)
    decreases |data| - tagPos
  {
    if tagPos != headSize {
      var tag := ReadVarintSpec(data[tagPos..]);
      ReadVarintBounds(data[tagPos..]);
      var column := decode(data, tag.value, bodyPos);
      WalkSplits(data, tagPos + tag.bytesRead, bodyPos + column.value.width, headSize, decode);
      var tags := HeaderTags(data, tagPos + tag.bytesRead, headSize);
      BodyCons(data, tag.value, tags.value, bodyPos, decode);
    }
  }

  /** A header of tags followed by a body that decodes is a successful walk. */
  lemma {:induction false} SplitWalks<V>(data: seq<Byte>, tagPos: nat, bodyPos: nat,
                                         headSize: nat, decode: ColumnDecoder<V>)
    requires tagPos <= |data|
    requires HeaderTags(data, tagPos, headSize).Some?
    requires Body(data, HeaderTags(data, tagPos, headSize).value, bodyPos, decode).Ok?
    ensures Walk(data, tagPos, bodyPos, headSize, decode)
            == Body(data, HeaderTags(data, tagPos, headSize).value, bodyPos, decode)
    decreases |data| - tagPos
  {
    if tagPos != headSize {
      var tag := ReadVarintSpec(data[tagPos..]);
      ReadVarintBounds(data[tagPos..]);
      var column := decode(data, tag.value, bodyPos);
      var tags := HeaderTags(data, tagPos + tag.bytesRead, headSize);
      BodyCons(data, tag.value, tags.value, bodyPos, decode);
      SplitWalks(data, tagPos + tag.bytesRead, bodyPos + column.value.width, headSize, decode);
    }
  }

  /** A successful walk ends with the tag cursor on the header size, so the
      header size lies between the first tag and the end of the buffer. */
  lemma {:induction false} WalkEndsAtHeadSize<V>(data: seq<Byte>, tagPos: nat, bodyPos: nat,
                                                 headSize: nat, decode: ColumnDecoder<V>)
    requires tagPos <= |data|
    requires Walk(data, tagPos, bodyPos, headSize, decode).Ok?
    ensures tagPos <= headSize <= |data|
    decreases |data| - tagPos
  {
    if tagPos != headSize {
      var tag := ReadVarintSpec(data[tagPos..]);
      ReadVarintBounds(data[tagPos..]);
      var column := decode(data, tag.value, bodyPos);
      WalkEndsAtHeadSize(data, tagPos + tag.bytesRead, bodyPos + column.value.width, headSize, decode);
    }
  }

  /** The columns of a successful body: the first at the body start, each
      next one right after the bytes the previous one took. */
  lemma {:induction false} BodyOffsets<V>(data: seq<Byte>, tags: seq<int>, bodyPos: nat,
                                          decode: ColumnDecoder<V>)
    requires Body(data, tags, bodyPos, decode).Ok?
    ensures var cols := Body(data, tags, bodyPos, decode).value;
      && (|cols| > 0 ==> cols[0].offset == bodyPos)
      && forall i :: 0 <= i < |cols| ==>
           decode(data, tags[i], cols[i].offset) == Ok(Decoded(cols[i].serialType, ColumnWidth(data, tags, bodyPos, decode, i)))
           && (i + 1 < |cols| ==> cols[i + 1].offset == cols[i].offset + ColumnWidth(data, tags, bodyPos, decode, i))
    decreases |tags|
  {
    if tags != [] {
      var column := decode(data, tags[0], bodyPos).value;
      BodyOffsets(data, tags[1..], bodyPos + column.width, decode);
    }
  }

  /** The width the decoder gave the i-th tag of a successful body. */
  function ColumnWidth<V>(data: seq<Byte>, tags: seq<int>, bodyPos: nat,
                          decode: ColumnDecoder<V>, i: nat): nat
    requires Body(data, tags, bodyPos, decode).Ok? && i < |tags|
    decreases i
  {
    var column := decode(data, tags[0], bodyPos).value;
    if i == 0 then column.width
    else ColumnWidth(data, tags[1..], bodyPos + column.width, decode, i - 1)
  }
}

/** The column decoder of src/record.rs and what it guarantees. */
module RecordColumns {
  import opened Outcomes
  import opened Bytes
  import opened Utils
  import opened SerialTypes
  import opened Records

  /** One pass of the loop body in src/record.rs (lines 37-103): the tag
      decides the width and the value.  Tags 3 and 5 slice 3 and 6 bytes and
      then `try_into` a 4- and an 8-byte array, which always fails, so they
      panic; tags 10, 11 and every negative tag reach `panic!`. */
  function DecodeColumn(data: seq<Byte>, tag: int, cp: nat): Outcome<Decoded<SerialType>> {
    if tag >= 12 && tag % 2 == 0 then
      var w := (tag - 12) / 2;
      var bytes :- Subslice(data, cp, w);
      Ok(Decoded(Blob(bytes), w))
    else if tag >= 13 && tag % 2 != 0 then
      var w := (tag - 13) / 2;
      var bytes :- Subslice(data, cp, w);
      if ValidUtf8(bytes) then Ok(Decoded(String(bytes), w)) else Panic(Unwrap)
    else if tag == 0 then Ok(Decoded(Null, 0))
    else if tag == 1 then
      if cp < |data| then Ok(Decoded(I8(ToSigned(data[cp], 1)), 1)) else Panic(OutOfRange)
    else if tag == 2 then
      var bytes :- Subslice(data, cp, 2);
      Ok(Decoded(I16(ToSigned(BigEndian(bytes), 2)), 2))
    else if tag == 3 then
      var bytes :- Subslice(data, cp, 3);
      Panic(Unwrap)
    else if tag == 4 then
      var bytes :- Subslice(data, cp, 4);
      Ok(Decoded(I32(ToSigned(BigEndian(bytes), 4)), 4))
    else if tag == 5 then
      var bytes :- Subslice(data, cp, 6);
      Panic(Unwrap)
    else if tag == 6 then
      var bytes :- Subslice(data, cp, 8);
      Ok(Decoded(I64(ToSigned(BigEndian(bytes), 8)), 8))
    else if tag == 7 then
      var bytes :- Subslice(data, cp, 8);
      Ok(Decoded(Float(bytes), 8))
    else if tag == 8 then Ok(Decoded(Zero, 0))
    else if tag == 9 then Ok(Decoded(One, 0))
    else Panic(Explicit)
  }

  /** src/record.rs `Record::from`. */
  function RecordFrom(data: seq<Byte>): Outcome<Record> {
    var columns :- WalkRecord(data, DecodeColumn);
    Ok(Record(columns))
  }

  /** The bytes of a two's-complement integer read back are the bytes. */
  lemma SignedBytesOf(bytes: seq<Byte>)
    requires |bytes| >= 1
    ensures SignedBytes(ToSigned(BigEndian(bytes), |bytes|), |bytes|) == bytes
  {
    BigEndianBytesOf(bytes);
  }

  /** A column decoded at `cp` agrees with the serial-type table: its width
      is the table's width for the tag, its value is of the kind the tag
      denotes (the tag is the value's own tag), and the bytes it was read
      from are exactly the bytes that store that value. */
  ghost predicate FollowsTable(data: seq<Byte>, tag: int, cp: nat, d: Decoded<SerialType>) {
    && ContentWidth(tag) == Some(d.width)
    && TagOf(d.value) == tag
    && WellFormed(d.value)
    && cp + d.width <= |data|
    && data[cp..cp + d.width] == EncodeValue(d.value)
    && |EncodeValue(d.value)| == d.width
  }

  /** Every column the decoder produces agrees with the table. */
  lemma DecodeColumnFollowsTable(data: seq<Byte>, tag: int, cp: nat)
    requires cp <= |data|
    requires DecodeColumn(data, tag, cp).Ok?
    ensures FollowsTable(data, tag, cp, DecodeColumn(data, tag, cp).value)
  {
    if tag >= 12 && tag % 2 == 0 {
      BlobFollowsTable(data, tag, cp);
    } else if tag >= 13 && tag % 2 != 0 {
      StringFollowsTable(data, tag, cp);
    } else if tag == 1 || tag == 2 || tag == 4 || tag == 6 {
      IntegerFollowsTable(data, tag, cp);
    } else {
      FixedFollowsTable(data, tag, cp);
    }
  }

  lemma BlobFollowsTable(data: seq<Byte>, tag: int, cp: nat)
    requires cp <= |data| && tag >= 12 && tag % 2 == 0
    requires DecodeColumn(data, tag, cp).Ok?
    ensures FollowsTable(data, tag, cp, DecodeColumn(data, tag, cp).value)
  {
    var d := DecodeColumn(data, tag, cp).value;
    assert TagOf(d.value) == 12 + 2 * ((tag - 12) / 2);
  }

  lemma StringFollowsTable(data: seq<Byte>, tag: int, cp: nat)
    requires cp <= |data| && tag >= 13 && tag % 2 != 0
    requires DecodeColumn(data, tag, cp).Ok?
    ensures FollowsTable(data, tag, cp, DecodeColumn(data, tag, cp).value)
  {
    var d := DecodeColumn(data, tag, cp).value;
    var w := (tag - 13) / 2;
    assert Subslice(data, cp, w).Ok?;
    assert d == Decoded(String(data[cp..cp + w]), w);
    assert TagOf(d.value) == 13 + 2 * w;
  }

  lemma IntegerFollowsTable(data: seq<Byte>, tag: int, cp: nat)
    requires cp <= |data| && (tag == 1 || tag == 2 || tag == 4 || tag == 6)
    requires DecodeColumn(data, tag, cp).Ok?
    ensures FollowsTable(data, tag, cp, DecodeColumn(data, tag, cp).value)
  {
    var d := DecodeColumn(data, tag, cp).value;
    if tag == 1 {
      assert data[cp..cp + 1] == [data[cp]];
      SignedBytesOf([data[cp]]);
    } else {
      var w := if tag == 2 then 2 else if tag == 4 then 4 else 8;
      assert Subslice(data, cp, w).Ok?;
      assert d.width == w;
      SignedBytesOf(data[cp..cp + w]);
    }
  }

  lemma FixedFollowsTable(data: seq<Byte>, tag: int, cp: nat)
    requires cp <= |data| && !(tag >= 12 && tag % 2 == 0) && !(tag >= 13 && tag % 2 != 0)
    requires tag != 1 && tag != 2 && tag != 4 && tag != 6
    requires DecodeColumn(data, tag, cp).Ok?
    ensures FollowsTable(data, tag, cp, DecodeColumn(data, tag, cp).value)
  {
    if tag == 7 {
      assert Subslice(data, cp, 8).Ok?;
    }
  }

  /** When a column decodes: exactly when the tag has a width in the table,
      is neither 3 nor 5, its bytes lie inside the buffer, and, for a string,
      those bytes are UTF-8.  Otherwise the program panics. */
  lemma DecodeColumnSucceeds(data: seq<Byte>, tag: int, cp: nat)
    requires cp <= |data|
    ensures DecodeColumn(data, tag, cp).Ok? <==>
      && ContentWidth(tag).Some?
      && tag != 3 && tag != 5
      && cp + ContentWidth(tag).value <= |data|
      && (tag >= 13 && tag % 2 == 1 ==> ValidUtf8(data[cp..cp + ContentWidth(tag).value]))
    ensures DecodeColumn(data, tag, cp).Panic? || DecodeColumn(data, tag, cp).Ok?
  {
    if tag >= 13 && tag % 2 == 1 {
      var w := (tag - 13) / 2;
      assert ContentWidth(tag) == Some(w);
      if cp + w <= |data| {
        assert Subslice(data, cp, w) == Ok(data[cp..cp + w]);
      }
    } else if tag >= 12 && tag % 2 == 0 {
      var w := (tag - 12) / 2;
      assert ContentWidth(tag) == Some(w);
      if cp + w <= |data| {
        assert Subslice(data, cp, w) == Ok(data[cp..cp + w]);
      }
    } else if tag == 2 || tag == 4 || tag == 6 || tag == 7 {
      var w := if tag == 2 then 2 else if tag == 4 then 4 else 8;
      assert ContentWidth(tag) == Some(w);
      assert Subslice(data, cp, w).Ok? <==> cp + w <= |data|;
    }
  }

  /** Tags 3 and 5 always panic, whatever the buffer; so do the reserved
      tags 10 and 11 and every negative tag, by the explicit `panic!`. */
  lemma UnsupportedTagsPanic(data: seq<Byte>, tag: int, cp: nat)
    requires tag == 3 || tag == 5 || tag == 10 || tag == 11 || tag < 0
    ensures DecodeColumn(data, tag, cp).Panic?
    ensures tag == 10 || tag == 11 || tag < 0 ==> DecodeColumn(data, tag, cp) == Panic(Explicit)
    ensures tag == 3 && cp + 3 <= |data| ==> DecodeColumn(data, tag, cp) == Panic(Unwrap)
    ensures tag == 5 && cp + 6 <= |data| ==> DecodeColumn(data, tag, cp) == Panic(Unwrap)
  {
  }

  /** The integer tags: 8 and 9 are the integers 0 and 1 with nothing
      stored; 1, 2, 4 and 6 are the big-endian two's-complement value of as
      many bytes as the tag says (8 for tag 6). */
  lemma IntegerColumns(data: seq<Byte>, tag: int, cp: nat)
    requires tag == 1 || tag == 2 || tag == 4 || tag == 6 || tag == 8 || tag == 9
    requires DecodeColumn(data, tag, cp).Ok?
    ensures var d := DecodeColumn(data, tag, cp).value;
      && (tag == 8 ==> IntegerValue(d.value) == Some(0) && d.width == 0)
      && (tag == 9 ==> IntegerValue(d.value) == Some(1) && d.width == 0)
      && (tag <= 6 ==>
            && d.width == (if tag == 6 then 8 else tag)
            && cp + d.width <= |data|
            && IntegerValue(d.value) == Some(ToSigned(BigEndian(data[cp..cp + d.width]), d.width)))
  {
    if tag == 1 {
      assert data[cp..cp + 1] == [data[cp]];
      assert BigEndian([data[cp]]) == data[cp];
    } else if tag <= 6 {
      var w := if tag == 6 then 8 else tag;
      assert Subslice(data, cp, w).Ok?;
    }
  }

  /** Storing a well-formed value under its own tag and decoding it gives
      the value back (for every variant but I24 and I48, whose tags panic). */
  lemma DecodeEncodedValue(v: SerialType, before: seq<Byte>, after: seq<Byte>)
    requires WellFormed(v) && !v.I24? && !v.I48?
    ensures DecodeColumn(before + EncodeValue(v) + after, TagOf(v), |before|)
            == Ok(Decoded(v, |EncodeValue(v)|))
  {
    var e := EncodeValue(v);
    var data := before + e + after;
    assert data[|before|..|before| + |e|] == e;
    match v
    case I8(i) =>
      SignedRoundTrip(i, 1);
      BigEndianRoundTrip(FromSigned(i, 1), 1);
      assert data[|before|] == e[0];
      assert [e[0]] == e;
    case I16(i) =>
      SignedRoundTrip(i, 2);
      BigEndianRoundTrip(FromSigned(i, 2), 2);
    case I32(i) =>
      SignedRoundTrip(i, 4);
      BigEndianRoundTrip(FromSigned(i, 4), 4);
    case I64(i) =>
      SignedRoundTrip(i, 8);
      BigEndianRoundTrip(FromSigned(i, 8), 8);
    case Blob(b) =>
      assert (TagOf(v) - 12) / 2 == |b|;
    case String(s) =>
      assert (TagOf(v) - 13) / 2 == |s|;
    case _ =>
  }

  /** `x` is stored in `data` from `p` on, byte for byte. */
  predicate HoldsAt(data: seq<Byte>, p: nat, x: seq<Byte>) {
    p + |x| <= |data| && forall k :: 0 <= k < |x| ==> data[p + k] == x[k]
  }

  /** Bytes stored at `p` are the slice of `data` they occupy. */
  lemma HoldsAtSlice(data: seq<Byte>, p: nat, x: seq<Byte>)
    requires HoldsAt(data, p, x)
    ensures data[p..p + |x|] == x
  {
    forall k | 0 <= k < |x|
      ensures data[p..p + |x|][k] == x[k]
    {
      assert data[p..p + |x|][k] == data[p + k];
    }
  }

  /** A slice of `data` holds at its start. */
  lemma SliceHolds(data: seq<Byte>, p: nat, end: nat, x: seq<Byte>)
    requires p <= end <= |data| && data[p..end] == x
    ensures HoldsAt(data, p, x)
  {
    forall k | 0 <= k < |x|
      ensures data[p + k] == x[k]
    {
      assert data[p..end][k] == data[p + k];
    }
  }

  /** Bytes stored at `p` split `data` into what precedes them, themselves,
      and what follows them. */
  lemma HoldsAtSplitsData(data: seq<Byte>, p: nat, x: seq<Byte>)
    requires HoldsAt(data, p, x)
    ensures data == data[..p] + x + data[p + |x|..]
  {
    var w := data[..p] + x + data[p + |x|..];
    forall k | 0 <= k < |data|
      ensures w[k] == data[k]
    {
      if p <= k < p + |x| {
        assert w[k] == x[k - p];
        assert data[p + (k - p)] == x[k - p];
      }
    }
  }

  /** Bytes stored at `p` start the suffix of `data` from `p`. */
  lemma HoldsAtSuffix(data: seq<Byte>, p: nat, x: seq<Byte>)
    requires HoldsAt(data, p, x)
    ensures data[p..] == x + data[p + |x|..]
  {
    var w := x + data[p + |x|..];
    forall k | 0 <= k < |data| - p
      ensures data[p..][k] == w[k]
    {
      if k < |x| {
        assert w[k] == x[k];
      }
    }
  }

  /** The two halves of a concatenation stored together are stored one
      after the other. */
  lemma HoldsAtSplit(data: seq<Byte>, p: nat, a: seq<Byte>, b: seq<Byte>)
    requires HoldsAt(data, p, a + b)
    ensures HoldsAt(data, p, a) && HoldsAt(data, p + |a|, b)
  {
    forall k | 0 <= k < |a|
      ensures data[p + k] == a[k]
    {
      assert (a + b)[k] == a[k];
    }
    forall k | 0 <= k < |b|
      ensures data[p + |a| + k] == b[k]
    {
      assert (a + b)[|a| + k] == b[k];
    }
  }

  /** A column whose value is stored, in the format's encoding, at its offset. */
  predicate StoredAt(data: seq<Byte>, c: Column<SerialType>) {
    HoldsAt(data, c.offset, EncodeValue(c.serialType))
  }

  /** A stored value that the decoder can read back is read back, with the
      width of its stored bytes. */
  lemma StoredDecodes(data: seq<Byte>, c: Column<SerialType>)
    requires StoredAt(data, c)
    requires WellFormed(c.serialType) && !c.serialType.I24? && !c.serialType.I48?
    ensures DecodeColumn(data, TagOf(c.serialType), c.offset)
            == Ok(Decoded(c.serialType, |EncodeValue(c.serialType)|))
  {
    var e := EncodeValue(c.serialType);
    HoldsAtSplitsData(data, c.offset, e);
    DecodeEncodedValue(c.serialType, data[..c.offset], data[c.offset + |e|..]);
  }

  /** `cols` is the body the format describes for `tags`, starting at
      `bodyPos`: one column per tag, in order, each holding a value of the
      kind its tag denotes, stored right after the previous one. */
  predicate LaidOut(data: seq<Byte>, cols: seq<Column<SerialType>>, tags: seq<int>, bodyPos: nat)
    decreases |cols|
  {
    if cols == [] then tags == []
    else
      && tags != []
      && cols[0].offset == bodyPos
      && TagOf(cols[0].serialType) == tags[0]
      && StoredAt(data, cols[0])
      && LaidOut(data, cols[1..], tags[1..], bodyPos + |EncodeValue(cols[0].serialType)|)
  }

  /** What a column decoder promises over `data`: every column it decodes
      has the tag it was asked for and is read from exactly the bytes that
      store its value. */
  ghost predicate StoresColumns(data: seq<Byte>, decode: ColumnDecoder<SerialType>) {
    forall tag: int, cp: nat :: cp <= |data| && decode(data, tag, cp).Ok? ==>
      && TagOf(decode(data, tag, cp).value.value) == tag
      && cp + decode(data, tag, cp).value.width <= |data|
      && |EncodeValue(decode(data, tag, cp).value.value)| == decode(data, tag, cp).value.width
      && StoredAt(data, Column(cp, decode(data, tag, cp).value.value))
  }

  /** The column decoder keeps that promise. */
  lemma DecodeColumnStores(data: seq<Byte>)
    ensures StoresColumns(data, DecodeColumn)
  {
    forall tag: int, cp: nat | cp <= |data| && DecodeColumn(data, tag, cp).Ok?
      ensures var d := DecodeColumn(data, tag, cp).value;
        && TagOf(d.value) == tag
        && cp + d.width <= |data|
        && |EncodeValue(d.value)| == d.width
        && StoredAt(data, Column(cp, d.value))
    {
      var d := DecodeColumn(data, tag, cp).value;
      DecodeColumnFollowsTable(data, tag, cp);
      SliceHolds(data, cp, cp + d.width, EncodeValue(d.value));
    }
  }

  /** A body decoded by a decoder that keeps that promise is laid out as the
      format says. */
  lemma {:induction false} StoredBodyLaidOut(data: seq<Byte>, tags: seq<int>, bodyPos: nat,
                                             decode: ColumnDecoder<SerialType>)
    requires StoresColumns(data, decode)
    requires bodyPos <= |data|
    requires Body(data, tags, bodyPos, decode).Ok?
    ensures LaidOut(data, Body(data, tags, bodyPos, decode).value, tags, bodyPos)
    decreases |tags|
  {
    if tags != [] {
      BodyHead(data, tags, bodyPos, decode);
      var column := decode(data, tags[0], bodyPos).value;
      assert TagOf(column.value) == tags[0];
      assert bodyPos + column.width <= |data|;
      StoredBodyLaidOut(data, tags[1..], bodyPos + column.width, decode);
    }
  }

  /** A decoded body is laid out as the format says. */
  lemma BodyLaidOut(data: seq<Byte>, tags: seq<int>, bodyPos: nat)
    requires bodyPos <= |data|
    requires Body(data, tags, bodyPos, DecodeColumn).Ok?
    ensures LaidOut(data, Body(data, tags, bodyPos, DecodeColumn).value, tags, bodyPos)
  {
    DecodeColumnStores(data);
    StoredBodyLaidOut(data, tags, bodyPos, DecodeColumn);
  }

  /** What a column decoder promises in the other direction: the bytes that
      store an encodable value are decoded, under that value's tag, to
      exactly that value. */
  ghost predicate DecodesStored(data: seq<Byte>, decode: ColumnDecoder<SerialType>) {
    forall c: Column<SerialType> :: StoredAt(data, c) && Encodable(c.serialType) ==>
      decode(data, TagOf(c.serialType), c.offset)
        == Ok(Decoded(c.serialType, |EncodeValue(c.serialType)|))
  }

  /** The column decoder keeps that promise. */
  lemma DecodeColumnDecodesStored(data: seq<Byte>)
    ensures DecodesStored(data, DecodeColumn)
  {
    forall c: Column<SerialType> | StoredAt(data, c) && Encodable(c.serialType)
      ensures DecodeColumn(data, TagOf(c.serialType), c.offset)
              == Ok(Decoded(c.serialType, |EncodeValue(c.serialType)|))
    {
      StoredDecodes(data, c);
    }
  }

  /** A body laid out as the format says, with encodable values, is decoded
      by a decoder that keeps that promise to exactly those columns. */
  lemma {:induction false} LaidOutBodyDecodesBy(data: seq<Byte>, cols: seq<Column<SerialType>>,
                                                tags: seq<int>, bodyPos: nat,
                                                decode: ColumnDecoder<SerialType>)
    requires DecodesStored(data, decode)
    requires LaidOut(data, cols, tags, bodyPos)
    requires forall i :: 0 <= i < |cols| ==> Encodable(cols[i].serialType)
    ensures Body(data, tags, bodyPos, decode) == Ok(cols)
    decreases |cols|
  {
    if cols != [] {
      var c := cols[0];
      assert decode(data, tags[0], bodyPos) == Ok(Decoded(c.serialType, |EncodeValue(c.serialType)|));
      EncodableTail(cols);
      LaidOutBodyDecodesBy(data, cols[1..], tags[1..], bodyPos + |EncodeValue(c.serialType)|, decode);
      assert cols == [Column(bodyPos, c.serialType)] + cols[1..];
    }
  }

  /** Conversely, a body laid out as the format says, with well-formed values
      and no I24 or I48, is decoded to exactly those columns. */
  lemma LaidOutBodyDecodes(data: seq<Byte>, cols: seq<Column<SerialType>>,
                           tags: seq<int>, bodyPos: nat)
    requires LaidOut(data, cols, tags, bodyPos)
    requires forall i :: 0 <= i < |cols| ==> Encodable(cols[i].serialType)
    ensures Body(data, tags, bodyPos, DecodeColumn) == Ok(cols)
  {
    DecodeColumnDecodesStored(data);
    LaidOutBodyDecodesBy(data, cols, tags, bodyPos, DecodeColumn);
  }

  lemma EncodableTail(cols: seq<Column<SerialType>>)
    requires cols != []
    requires forall i :: 0 <= i < |cols| ==> Encodable(cols[i].serialType)
    ensures forall i :: 0 <= i < |cols[1..]| ==> Encodable(cols[1..][i].serialType)
  {
  }

  /** A decoded record is laid out as the format says: its columns are the
      body described by the tags of a header that ends at the header size,
      the first value stored right at the header size. */
  lemma RecordLayout(data: seq<Byte>)
    requires RecordFrom(data).Ok?
    ensures var head := ReadVarintSpec(data);
      var headSize := AsUsize(head.value);
      && head.bytesRead <= headSize <= |data|
      && HeaderTags(data, head.bytesRead, headSize).Some?
      && LaidOut(data, RecordFrom(data).value.columns,
                 HeaderTags(data, head.bytesRead, headSize).value, headSize)
  {
    var head := ReadVarintSpec(data);
    ReadVarintBounds(data);
    var headSize := AsUsize(head.value);
    WalkIsHeaderThenBody(data, head.bytesRead, headSize, headSize, DecodeColumn);
    WalkEndsAtHeadSize(data, head.bytesRead, headSize, headSize, DecodeColumn);
    BodyLaidOut(data, HeaderTags(data, head.bytesRead, headSize).value, headSize);
  }

  /** A record whose header is `[2, 4]` holds one 4-byte integer, stored
      right after the header: the bytes `00 00 00 2A` read as 42. */
  lemma OneInt32Record()
    ensures RecordFrom([0x02, 0x04, 0x00, 0x00, 0x00, 0x2A]) == Ok(Record([Column(2, I32(42))]))
  {
    var data: seq<Byte> := [0x02, 0x04, 0x00, 0x00, 0x00, 0x2A];
    VarintSingleByte(0x02, data[1..]);
    assert data == [0x02] + data[1..];
    VarintSingleByte(0x04, data[2..]);
    assert data[1..] == [0x04] + data[2..];
    var body: seq<Byte> := [0x00, 0x00, 0x00, 0x2A];
    assert data[2..6] == body;
    assert body[..3] == [0x00, 0x00, 0x00];
    assert [0x00, 0x00, 0x00][..2] == [0x00, 0x00];
    assert [0x00, 0x00][..1] == [0x00];
    assert BigEndian(body) == 42;
    assert Half(4) == 128 * 256 * 256 * 256;
    assert DecodeColumn(data, 4, 2) == Ok(Decoded(I32(42), 4));
    assert Walk(data, 2, 6, 2, DecodeColumn) == Ok([]);
    WalkStep(data, 1, 2, 2, DecodeColumn);
    assert [Column(2, I32(42))] + [] == [Column(2, I32(42))];
    assert AsUsize(2) == 2;
    assert WalkRecord(data, DecodeColumn) == Walk(data, 1, 2, 2, DecodeColumn);
  }

  /** Tag 23 is a string of (23 - 13) / 2 = 5 bytes. */
  lemma HelloRecord()
    ensures RecordFrom([0x02, 23, 0x68, 0x65, 0x6C, 0x6C, 0x6F])
            == Ok(Record([Column(2, String([0x68, 0x65, 0x6C, 0x6C, 0x6F]))]))
  {
    var data: seq<Byte> := [0x02, 23, 0x68, 0x65, 0x6C, 0x6C, 0x6F];
    var hello: seq<Byte> := [0x68, 0x65, 0x6C, 0x6C, 0x6F];
    VarintSingleByte(0x02, data[1..]);
    assert data == [0x02] + data[1..];
    VarintSingleByte(23, data[2..]);
    assert data[1..] == [23] + data[2..];
    HelloColumn(data, hello);
    assert Walk(data, 2, 7, 2, DecodeColumn) == Ok([]);
    WalkStep(data, 1, 2, 2, DecodeColumn);
    assert [Column(2, String(hello))] + [] == [Column(2, String(hello))];
    assert AsUsize(2) == 2;
    assert WalkRecord(data, DecodeColumn) == Walk(data, 1, 2, 2, DecodeColumn);
  }

  /** The string column of that record. */
  lemma HelloColumn(data: seq<Byte>, hello: seq<Byte>)
    requires data == [0x02, 23] + hello && hello == [0x68, 0x65, 0x6C, 0x6C, 0x6F]
    ensures DecodeColumn(data, 23, 2) == Ok(Decoded(String(hello), 5))
  {
    assert data[2..7] == hello;
    AsciiIsUtf8(hello);
    assert Subslice(data, 2, 5) == Ok(hello);
  }

  /** A header whose size varint points past a tag varint that runs to the
      end of the buffer: the cursor reaches the end without meeting the
      header size, and from there on `read_variant` of an empty slice reads
      nothing, so the loop pushes Null columns forever. */
  lemma UnterminatedHeaderDiverges()
    ensures RecordFrom([0x04, 0x80, 0x00]) == Diverge
  {
    var data: seq<Byte> := [0x04, 0x80, 0x00];
    var tagBytes: seq<Byte> := [0x80, 0x00];
    assert data == [0x04] + tagBytes;
    assert data[1..] == tagBytes;
    VarintSingleByte(0x04, tagBytes);
    ContinuedZero();
    WalkStep(data, 1, 4, 4, DecodeColumn);
    assert DecodeColumn(data, 0, 4) == Ok(Decoded(Null, 0));
    assert Walk(data, 3, 4, 4, DecodeColumn) == Diverge;
  }

  /** `80 00` is a two-byte varint of 0. */
  lemma ContinuedZero()
    ensures ReadVarintSpec([0x80, 0x00]) == Varint(0, 2)
  {
    var bytes: seq<Byte> := [0x80, 0x00];
    VarintStopsAtTerminator(bytes, 1);
    assert bytes[..2] == bytes;
    assert bytes[..1] == [0x80];
  }

  // ---------------------------------------------------------------------
  // The format's encoding of a record, and decoding it back
  // ---------------------------------------------------------------------

  /** A value the decoder can read back: well-formed, not of the two integer
      widths whose tags panic, and with a tag that a varint of at most eight
      bytes holds. */
  predicate Encodable(v: SerialType) {
    WellFormed(v) && !v.I24? && !v.I48? && TagOf(v) < Pow128(8)
  }

  function Tags(vs: seq<SerialType>): (tags: seq<int>)
    ensures |tags| == |vs|
    ensures (forall i :: 0 <= i < |vs| ==> Encodable(vs[i])) ==> TagsFit(tags)
  {
    if vs == [] then [] else [TagOf(vs[0]) as int] + Tags(vs[1..])
  }

  /** Tags that a varint of at most eight bytes holds. */
  predicate TagsFit(tags: seq<int>) {
    forall i :: 0 <= i < |tags| ==> 0 <= tags[i] < Pow128(8)
  }

  /** The tag varints of a header, one per tag. */
  function HeaderBytes(tags: seq<int>): seq<Byte>
    requires TagsFit(tags)
  {
    if tags == [] then [] else EncodeVarint(tags[0]) + HeaderBytes(tags[1..])
  }

  /** The stored values, one after another. */
  function BodyBytes(vs: seq<SerialType>): seq<Byte> {
    if vs == [] then [] else EncodeValue(vs[0]) + BodyBytes(vs[1..])
  }

  /** The columns of the values laid out from `pos` on. */
  function Placed(vs: seq<SerialType>, pos: nat): (cols: seq<Column<SerialType>>)
    ensures |cols| == |vs|
  {
    if vs == [] then [] else [Column(pos, vs[0])] + Placed(vs[1..], pos + |EncodeValue(vs[0])|)
  }

  /** Placed columns hold the values in order. */
  lemma {:induction false} PlacedValues(vs: seq<SerialType>, pos: nat)
    ensures forall i :: 0 <= i < |vs| ==> Placed(vs, pos)[i].serialType == vs[i]
    decreases |vs|
  {
    if vs != [] {
      var rest := Placed(vs[1..], pos + |EncodeValue(vs[0])|);
      PlacedValues(vs[1..], pos + |EncodeValue(vs[0])|);
      var cols := [Column(pos, vs[0])] + rest;
      assert Placed(vs, pos) == cols;
      forall i | 0 <= i < |vs|
        ensures cols[i].serialType == vs[i]
      {
        if i > 0 {
          assert cols[i] == rest[i - 1];
        }
      }
    }
  }

  /** The header size of a record whose tag varints take `n` bytes.  The
      size counts its own varint, so it is an `h` with
      h == |EncodeVarint(h)| + n. */
  function HeaderSize(n: nat): (h: nat)
    requires n + 8 < Pow128(8)
    ensures h < Pow128(8) && h == |EncodeVarint(h)| + n
  {
    var k := SizeWidth(n);
    VarintLengthIs(n + k, k);
    n + k
  }

  /** The width of that header size varint: the first k from 1 to 8 for
      which n + k has k base-128 digits. */
  function SizeWidth(n: nat): (k: nat)
    requires n + 8 < Pow128(8)
    ensures 1 <= k <= 8 && n + k < Pow128(k) && (k >= 2 ==> Pow128(k - 1) <= n + k)
  {
    if n + 1 < 0x80 then 1
    else if n + 2 < 0x4000 then 2
    else if n + 3 < 0x20_0000 then 3
    else if n + 4 < 0x1000_0000 then 4
    else if n + 5 < 0x8_0000_0000 then 5
    else if n + 6 < 0x400_0000_0000 then 6
    else if n + 7 < 0x2_0000_0000_0000 then 7
    else 8
  }

  /** A record as the format stores it: the header size varint, the tag
      varints, then the values. */
  function EncodeRecord(vs: seq<SerialType>): seq<Byte>
    requires forall i :: 0 <= i < |vs| ==> Encodable(vs[i])
    requires |HeaderBytes(Tags(vs))| + 8 < Pow128(8)
  {
    var header := HeaderBytes(Tags(vs));
    EncodeVarint(HeaderSize(|header|)) + header + BodyBytes(vs)
  }

  /** One tag varint read at the header cursor. */
  lemma HeaderTagStep(data: seq<Byte>, p: nat, headSize: nat, tags: seq<int>)
    requires tags != [] && 0 <= tags[0] < Pow128(8)
    requires p + |EncodeVarint(tags[0])| <= headSize <= |data|
    requires HoldsAt(data, p, EncodeVarint(tags[0]))
    requires HeaderTags(data, p + |EncodeVarint(tags[0])|, headSize) == Some(tags[1..])
    ensures HeaderTags(data, p, headSize) == Some(tags)
  {
    var e := EncodeVarint(tags[0]);
    HoldsAtSuffix(data, p, e);
    VarintRoundTrip(tags[0], data[p + |e|..]);
    assert [tags[0]] + tags[1..] == tags;
  }

  /** Tag varints laid end to end are read back as their tags, the cursor
      stopping exactly at the end of the header. */
  lemma {:induction false} HeaderTagsOfEncoding(data: seq<Byte>, p: nat, end: nat, tags: seq<int>)
    requires TagsFit(tags)
    requires HoldsAt(data, p, HeaderBytes(tags)) && end == p + |HeaderBytes(tags)|
    ensures HeaderTags(data, p, end) == Some(tags)
    decreases |tags|
  {
    if tags != [] {
      HeaderBytesSplit(data, p, tags);
      HeaderTagsOfEncoding(data, p + |EncodeVarint(tags[0])|, end, tags[1..]);
      HeaderTagStep(data, p, end, tags);
    }
  }

  /** The first tag varint of a stored header, and the rest of the header
      after it. */
  lemma HeaderBytesSplit(data: seq<Byte>, p: nat, tags: seq<int>)
    requires tags != [] && TagsFit(tags)
    requires HoldsAt(data, p, HeaderBytes(tags))
    ensures TagsFit(tags[1..])
    ensures |HeaderBytes(tags)| == |EncodeVarint(tags[0])| + |HeaderBytes(tags[1..])|
    ensures HoldsAt(data, p, EncodeVarint(tags[0]))
    ensures HoldsAt(data, p + |EncodeVarint(tags[0])|, HeaderBytes(tags[1..]))
  {
    var e, tail := EncodeVarint(tags[0]), HeaderBytes(tags[1..]);
    assert HeaderBytes(tags) == e + tail;
    HoldsAtSplit(data, p, e, tail);
  }

  /** Values stored one after another are laid out as the format says. */
  lemma {:induction false} BodyOfEncoding(data: seq<Byte>, pos: nat, vs: seq<SerialType>)
    requires HoldsAt(data, pos, BodyBytes(vs))
    ensures LaidOut(data, Placed(vs, pos), Tags(vs), pos)
    decreases |vs|
  {
    if vs != [] {
      BodyBytesSplit(data, pos, vs);
      BodyOfEncoding(data, pos + |EncodeValue(vs[0])|, vs[1..]);
      BodyOfEncodingStep(data, pos, vs);
    }
  }

  /** The first stored value of a body, and the rest of the body after it. */
  lemma BodyBytesSplit(data: seq<Byte>, pos: nat, vs: seq<SerialType>)
    requires vs != []
    requires HoldsAt(data, pos, BodyBytes(vs))
    ensures StoredAt(data, Column(pos, vs[0]))
    ensures HoldsAt(data, pos + |EncodeValue(vs[0])|, BodyBytes(vs[1..]))
  {
    var e := EncodeValue(vs[0]);
    assert BodyBytes(vs) == e + BodyBytes(vs[1..]);
    HoldsAtSplit(data, pos, e, BodyBytes(vs[1..]));
  }

  /** One more stored value in front of a laid-out body. */
  lemma BodyOfEncodingStep(data: seq<Byte>, pos: nat, vs: seq<SerialType>)
    requires vs != []
    requires StoredAt(data, Column(pos, vs[0]))
    requires LaidOut(data, Placed(vs[1..], pos + |EncodeValue(vs[0])|), Tags(vs[1..]), pos + |EncodeValue(vs[0])|)
    ensures LaidOut(data, Placed(vs, pos), Tags(vs), pos)
  {
    var v := vs[0];
    var rest := Placed(vs[1..], pos + |EncodeValue(v)|);
    LaidOutCons(data, Column(pos, v), rest, TagOf(v), Tags(vs[1..]), pos);
    assert Placed(vs, pos) == [Column(pos, v)] + rest;
    assert Tags(vs) == [TagOf(v) as int] + Tags(vs[1..]);
  }

  /** One more column in front of a laid-out body, stored at its start. */
  lemma LaidOutCons(data: seq<Byte>, c: Column<SerialType>, cols: seq<Column<SerialType>>,
                    t: int, tags: seq<int>, pos: nat)
    requires c.offset == pos && TagOf(c.serialType) == t && StoredAt(data, c)
    requires LaidOut(data, cols, tags, pos + |EncodeValue(c.serialType)|)
    ensures LaidOut(data, [c] + cols, [t] + tags, pos)
  {
    assert ([c] + cols)[1..] == cols;
    assert ([t] + tags)[1..] == tags;
  }

  /** Values stored one after another decode to themselves. */
  lemma StoredBodyDecodes(data: seq<Byte>, pos: nat, vs: seq<SerialType>)
    requires forall i :: 0 <= i < |vs| ==> Encodable(vs[i])
    requires HoldsAt(data, pos, BodyBytes(vs))
    ensures Body(data, Tags(vs), pos, DecodeColumn) == Ok(Placed(vs, pos))
  {
    BodyOfEncoding(data, pos, vs);
    var cols := Placed(vs, pos);
    PlacedValues(vs, pos);
    assert forall i :: 0 <= i < |cols| ==> Encodable(cols[i].serialType);
    LaidOutBodyDecodes(data, cols, Tags(vs), pos);
  }

  /** The header of a stored record: its size, then its tags. */
  lemma EncodedHeader(vs: seq<SerialType>)
    requires forall i :: 0 <= i < |vs| ==> Encodable(vs[i])
    requires |HeaderBytes(Tags(vs))| + 8 < Pow128(8)
    ensures var h := HeaderSize(|HeaderBytes(Tags(vs))|);
      && ReadVarintSpec(EncodeRecord(vs)) == Varint(h, |EncodeVarint(h)|)
      && HeaderTags(EncodeRecord(vs), |EncodeVarint(h)|, h) == Some(Tags(vs))
  {
    EncodeRecordParts(vs);
    HeaderAfterLength(EncodeRecord(vs), HeaderSize(|HeaderBytes(Tags(vs))|),
                      HeaderBytes(Tags(vs)), Tags(vs), BodyBytes(vs));
  }

  /** A header of tag varints after its size reads back as that size and
      those tags. */
  lemma HeaderAfterLength(data: seq<Byte>, size: nat, header: seq<Byte>, tags: seq<int>, body: seq<Byte>)
    requires TagsFit(tags) && header == HeaderBytes(tags)
    requires size < Pow128(8) && size == |EncodeVarint(size)| + |header|
    requires data == EncodeVarint(size) + header + body
    ensures ReadVarintSpec(data) == Varint(size, |EncodeVarint(size)|)
    ensures HeaderTags(data, |EncodeVarint(size)|, size) == Some(tags)
  {
    LengthPrefixed(data, size, header, body);
    HeaderTagsOfEncoding(data, |EncodeVarint(size)|, size, tags);
  }

  /** A record laid out as its header size varint, the header, then the
      body: the size reads back, and the header and the body follow it. */
  lemma LengthPrefixed(data: seq<Byte>, size: nat, header: seq<Byte>, body: seq<Byte>)
    requires size < Pow128(8) && size == |EncodeVarint(size)| + |header|
    requires data == EncodeVarint(size) + header + body
    ensures ReadVarintSpec(data) == Varint(size, |EncodeVarint(size)|)
    ensures HoldsAt(data, |EncodeVarint(size)|, header)
    ensures HoldsAt(data, size, body)
  {
    var e := EncodeVarint(size);
    assert data == e + (header + body);
    VarintRoundTrip(size, header + body);
    ConcatHolds(e, header, body);
  }

  /** The middle and the last of three concatenated parts hold where they
      begin. */
  lemma ConcatHolds(a: seq<Byte>, b: seq<Byte>, c: seq<Byte>)
    ensures HoldsAt(a + b + c, |a|, b)
    ensures HoldsAt(a + b + c, |a| + |b|, c)
  {
  }

  /** The body of a stored record decodes to its values. */
  lemma EncodedBody(vs: seq<SerialType>)
    requires forall i :: 0 <= i < |vs| ==> Encodable(vs[i])
    requires |HeaderBytes(Tags(vs))| + 8 < Pow128(8)
    ensures var h := HeaderSize(|HeaderBytes(Tags(vs))|);
      Body(EncodeRecord(vs), Tags(vs), h, DecodeColumn) == Ok(Placed(vs, h))
  {
    EncodeRecordParts(vs);
    BodyAfterHeader(EncodeRecord(vs), HeaderSize(|HeaderBytes(Tags(vs))|), HeaderBytes(Tags(vs)), vs);
  }

  /** Whatever header precedes it, the body of a stored record decodes to
      the values it was made from. */
  lemma BodyAfterHeader(data: seq<Byte>, size: nat, header: seq<Byte>, vs: seq<SerialType>)
    requires forall i :: 0 <= i < |vs| ==> Encodable(vs[i])
    requires size < Pow128(8) && size == |EncodeVarint(size)| + |header|
    requires data == EncodeVarint(size) + header + BodyBytes(vs)
    ensures Body(data, Tags(vs), size, DecodeColumn) == Ok(Placed(vs, size))
  {
    LengthPrefixed(data, size, header, BodyBytes(vs));
    StoredBodyDecodes(data, size, vs);
  }

  lemma EncodeRecordParts(vs: seq<SerialType>)
    requires forall i :: 0 <= i < |vs| ==> Encodable(vs[i])
    requires |HeaderBytes(Tags(vs))| + 8 < Pow128(8)
    ensures TagsFit(Tags(vs))
    ensures EncodeRecord(vs)
            == EncodeVarint(HeaderSize(|HeaderBytes(Tags(vs))|)) + HeaderBytes(Tags(vs)) + BodyBytes(vs)
  {
  }

  /** Decoding a stored record gives back its values, each at the offset
      where the format puts it, whatever the width of its header size. */
  lemma RecordRoundTrip(vs: seq<SerialType>)
    requires forall i :: 0 <= i < |vs| ==> Encodable(vs[i])
    requires |HeaderBytes(Tags(vs))| + 8 < Pow128(8)
    ensures RecordFrom(EncodeRecord(vs))
            == Ok(Record(Placed(vs, HeaderSize(|HeaderBytes(Tags(vs))|))))
  {
    var headSize := HeaderSize(|HeaderBytes(Tags(vs))|);
    var data := EncodeRecord(vs);
    EncodedHeader(vs);
    EncodedBody(vs);
    WalkIsHeaderThenBody(data, |EncodeVarint(headSize)|, headSize, headSize, DecodeColumn);
    assert AsUsize(headSize) == headSize;
    assert WalkRecord(data, DecodeColumn) == Ok(Placed(vs, headSize));
  }

  /** Two header sizes the decoder reads: 126 bytes of tags take a one-byte
      size, 127 bytes a two-byte one. */
  lemma HeaderSizeWidths()
    ensures HeaderSize(126) == 127 && |EncodeVarint(127)| == 1
    ensures HeaderSize(127) == 129 && |EncodeVarint(129)| == 2
  {
    VarintLengthIs(127, 1);
    VarintLengthIs(129, 2);
  }
}
