/** A table b-tree leaf cell (src/cell.rs:18-30, and the same code at
    src/page.rs:329-341 over the older record): the payload size varint, the
    rowid varint, then the record, which runs to the end of the slice. */
module Cells {
  import opened Outcomes
  import opened Bytes
  import opened Utils
  import opened Records
  import opened RecordColumns

  /** `struct Cell`, over either record type. */
  datatype Cell<R> = Cell(sizeOfRecord: nat, rowid: int, record: R)

  /** `Cell::from`.  The record is decoded first; its error comes out
      unchanged.  Only then is the payload size converted to `usize`, which
      fails with the Offset error for a negative value.  Both varints are
      read inside the slice, so the sub-slices never panic. */
  function CellFrom<R>(data: seq<Byte>, decodeRecord: seq<Byte> -> Outcome<R>): Outcome<Cell<R>> {
    var size := ReadVarintSpec(data);
    ReadVarintBounds(data);
    var rowid := ReadVarintSpec(data[size.bytesRead..]);
    ReadVarintBounds(data[size.bytesRead..]);
    var record :- decodeRecord(data[size.bytesRead + rowid.bytesRead..]);
    if size.value < 0 then Err(Offset) else Ok(Cell(size.value, rowid.value, record))
  }

  /** The fields of a decoded cell come from where the format puts them: the
      payload size from the first varint, the rowid from the varint right
      after it, the record from everything after both. */
  lemma CellLayout<R>(data: seq<Byte>, decodeRecord: seq<Byte> -> Outcome<R>)
    requires CellFrom(data, decodeRecord).Ok?
    ensures var size := ReadVarintSpec(data);
      var rowid := ReadVarintSpec(data[size.bytesRead..]);
      var cell := CellFrom(data, decodeRecord).value;
      && size.bytesRead + rowid.bytesRead <= |data|
      && cell.sizeOfRecord == size.value
      && cell.rowid == rowid.value
      && decodeRecord(data[size.bytesRead + rowid.bytesRead..]) == Ok(cell.record)
  {
    ReadVarintBounds(data);
    ReadVarintBounds(data[ReadVarintSpec(data).bytesRead..]);
  }

  /** How a cell fails: a record failure comes out unchanged, whatever the
      payload size; with a decoded record, a negative payload size is the
      Offset error, and nothing else fails. */
  lemma CellErrors<R>(data: seq<Byte>, decodeRecord: seq<Byte> -> Outcome<R>)
    ensures var size := ReadVarintSpec(data);
      var rowid := ReadVarintSpec(data[size.bytesRead..]);
      var record := decodeRecord(data[size.bytesRead + rowid.bytesRead..]);
      && size.bytesRead + rowid.bytesRead <= |data|
      && (!record.Ok? ==> CellFrom(data, decodeRecord) == record.PropagateFailure())
      && (record.Ok? ==> (CellFrom(data, decodeRecord).Ok? <==> size.value >= 0))
      && (record.Ok? && size.value < 0 ==> CellFrom(data, decodeRecord) == Err(Offset))
  {
    ReadVarintBounds(data);
    ReadVarintBounds(data[ReadVarintSpec(data).bytesRead..]);
  }

  /** A cell written as the format stores it reads back: the payload size
      and the rowid as written, and the record decoded from all of the bytes
      that follow, whatever the payload size says. */
  lemma CellRoundTrip<R>(size: nat, rowid: nat, payload: seq<Byte>,
                         decodeRecord: seq<Byte> -> Outcome<R>)
    requires size < Pow128(8) && rowid < Pow128(8)
    ensures var data := EncodeVarint(size) + EncodeVarint(rowid) + payload;
      CellFrom(data, decodeRecord) ==
        match decodeRecord(payload)
        case Ok(record) => Ok(Cell(size, rowid, record))
        case Err(e) => Err(e)
        case Panic(p) => Panic(p)
        case Diverge => Diverge
  {
    var a, b := EncodeVarint(size), EncodeVarint(rowid);
    var data := a + b + payload;
    assert data == a + (b + payload);
    VarintRoundTrip(size, b + payload);
    assert data[|a|..] == b + payload;
    VarintRoundTrip(rowid, payload);
    assert data[|a| + |b|..] == payload;
  }

  /** A cell of payload size 6 and rowid 1 holding the one-integer record. */
  lemma CellWithOneInt32()
    ensures CellFrom([0x06, 0x01, 0x02, 0x04, 0x00, 0x00, 0x00, 0x2A], RecordFrom)
            == Ok(Cell(6, 1, Record([Column(2, SerialTypes.I32(42))])))
  {
    var data: seq<Byte> := [0x06, 0x01, 0x02, 0x04, 0x00, 0x00, 0x00, 0x2A];
    VarintSingleByte(0x06, data[1..]);
    assert data == [0x06] + data[1..];
    VarintSingleByte(0x01, data[2..]);
    assert data[1..] == [0x01] + data[2..];
    assert data[2..] == [0x02, 0x04, 0x00, 0x00, 0x00, 0x2A];
    OneInt32Record();
  }
}
