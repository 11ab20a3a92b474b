/** The page layer of src/page.rs: the file header, where a page starts, the
    page header, the cell-pointer array with one cell per pointer
    (`RowReader`), and the lookups over the schema rows of page 1. */
module Pages {
  import opened Outcomes
  import opened Bytes
  import opened Utils
  import opened Cells
  import opened LegacyRecords

  const FILE_HEADER_SIZE: nat := 100
  const MAX_PAGE_HEADER_SIZE: nat := 8
  const BUFFER_SIZE: nat := 40960

  /** `struct FileHeader`: a `u16` page size and a `u32` page count. */
  datatype FileHeader = FileHeader(pageSize: nat, pageCount: nat)

  /** `FileHeader::from` on a freshly opened file: the first 100 bytes, the
      page size from bytes 16-17 and the page count from bytes 28-31, both
      big-endian.  A page size stored as 1 is kept as 1. */
  function FileHeaderFrom(file: seq<Byte>): Outcome<FileHeader> {
    var header :- ReadExact(file, 0, FILE_HEADER_SIZE);
    Ok(FileHeader(BigEndian(header[16..18]), BigEndian(header[28..32])))
  }

  /** The header fails exactly on a file shorter than 100 bytes, with the
      I/O error; otherwise its fields are the big-endian values at 16 and 28,
      within the ranges of `u16` and `u32`. */
  lemma FileHeaderFields(file: seq<Byte>)
    ensures FileHeaderFrom(file).Ok? <==> |file| >= FILE_HEADER_SIZE
    ensures !FileHeaderFrom(file).Ok? ==> FileHeaderFrom(file) == Err(Io)
    ensures FileHeaderFrom(file).Ok? ==>
      var h := FileHeaderFrom(file).value;
      && h.pageSize == BigEndian(file[16..18]) && h.pageSize < 0x1_0000
      && h.pageCount == BigEndian(file[28..32]) && h.pageCount < 0x1_0000_0000
  {
    if |file| >= FILE_HEADER_SIZE {
      var header := file[0..100];
      assert header[16..18] == file[16..18];
      assert header[28..32] == file[28..32];
    }
  }

  /** A header holding page size `s` at 16 and page count `c` at 28 is read
      back as (s, c), whatever the other bytes hold. */
  lemma FileHeaderRoundTrip(file: seq<Byte>, s: nat, c: nat)
    requires |file| >= FILE_HEADER_SIZE && s < 0x1_0000 && c < 0x1_0000_0000
    requires file[16..18] == BigEndianBytes(s, 2) && file[28..32] == BigEndianBytes(c, 4)
    ensures FileHeaderFrom(file) == Ok(FileHeader(s, c))
  {
    FileHeaderFields(file);
    BigEndianRoundTrip(s, 2);
    BigEndianRoundTrip(c, 4);
  }

  /** The sample database: pages of 4096 bytes, four of them. */
  lemma SampleFileHeader(file: seq<Byte>)
    requires |file| >= FILE_HEADER_SIZE
    requires file[16] == 0x10 && file[17] == 0x00
    requires file[28] == 0 && file[29] == 0 && file[30] == 0 && file[31] == 4
    ensures FileHeaderFrom(file) == Ok(FileHeader(4096, 4))
  {
    FileHeaderFields(file);
    var size, count := file[16..18], file[28..32];
    assert size[..1] == [0x10];
    assert BigEndian(size) == 4096;
    var c3, c2, c1 := count[..3], count[..2], count[..1];
    assert c1 == [0] && c2 == [0, 0] && c3 == [0, 0, 0];
    assert c2[..1] == c1 && c3[..2] == c2 && count[..3] == c3;
    assert BigEndian(c1) == 0;
    assert BigEndian(c2) == 0;
    assert BigEndian(c3) == 0;
    assert BigEndian(count) == 4;
  }

  /** Where page n begins in the file, (n - 1) * s, the file header of page
      1 included. */
  function PageBase(pageNum: nat, pageSize: nat): nat
    requires pageNum >= 1
  {
    (pageNum - 1) * pageSize
  }

  /** `get_page_start_offset`: pages are numbered from 1; page 1 starts
      after the 100-byte file header.  Page 0 would underflow; no caller
      passes it. */
  function PageStartOffset(pageNum: nat, pageSize: nat): nat
    requires pageNum >= 1
  {
    var start := (pageNum - 1) * pageSize;
    if pageNum == 1 then start + FILE_HEADER_SIZE else start
  }

  /** Where pages start: page 1 right after the file header, every later
      page one page size after the one before it. */
  lemma PageStarts(pageNum: nat, pageSize: nat)
    requires pageNum >= 1
    ensures PageStartOffset(1, pageSize) == FILE_HEADER_SIZE
    ensures pageNum >= 2 ==> PageStartOffset(pageNum, pageSize) == (pageNum - 1) * pageSize
    ensures pageNum >= 2 ==> PageStartOffset(pageNum + 1, pageSize) == PageStartOffset(pageNum, pageSize) + pageSize
  {
    MulSucc(pageNum - 1, pageSize);
  }

  /** `struct PageHeader`. */
  datatype PageHeader = PageHeader(cellCount: nat)

  /** `PageHeader::from`: reads the two bytes AT the page start, which are the
      page-type flag and the high byte of the first freeblock, not the cell
      count (which the format puts at offset 3). */
  function PageHeaderFrom(file: seq<Byte>, pageNum: nat, pageSize: nat): Outcome<PageHeader>
    requires pageNum >= 1
  {
    var buffer :- ReadExact(file, PageStartOffset(pageNum, pageSize), 2);
    Ok(PageHeader(BigEndian(buffer)))
  }

  /** `RowReader::get_cell_count`: the big-endian `u16` at page offset 3. */
  function GetCellCount(file: seq<Byte>, pageNum: nat, pageSize: nat): Outcome<nat>
    requires pageNum >= 1
  {
    var buffer :- ReadExact(file, PageStartOffset(pageNum, pageSize) + 3, 2);
    Ok(BigEndian(buffer))
  }

  /** The two readers of the cell count read different bytes: the page
      header's count is the page-type byte times 256 plus the next byte,
      while `get_cell_count` reads bytes 3 and 4 as the format says.  On a
      table leaf page (type 13) the page header therefore always claims at
      least 3328 cells. */
  lemma CellCountReaders(file: seq<Byte>, pageNum: nat, pageSize: nat)
    requires pageNum >= 1
    ensures var start := PageStartOffset(pageNum, pageSize);
      && (PageHeaderFrom(file, pageNum, pageSize).Ok? <==> start + 2 <= |file|)
      && (GetCellCount(file, pageNum, pageSize).Ok? <==> start + 5 <= |file|)
      && (PageHeaderFrom(file, pageNum, pageSize).Ok? ==>
            PageHeaderFrom(file, pageNum, pageSize).value.cellCount == file[start] as int * 256 + file[start + 1] as int)
      && (GetCellCount(file, pageNum, pageSize).Ok? ==>
            GetCellCount(file, pageNum, pageSize).value == file[start + 3] as int * 256 + file[start + 4] as int)
      && (PageHeaderFrom(file, pageNum, pageSize).Ok? && file[start] == PageTypeByte(TableLeaf) ==>
            PageHeaderFrom(file, pageNum, pageSize).value.cellCount >= 13 * 256)
  {
    var start := PageStartOffset(pageNum, pageSize);
    if start + 2 <= |file| {
      var b := file[start..start + 2];
      assert b[..1] == [file[start]];
      assert BigEndian(b) == BigEndian([file[start]]) * 256 + file[start + 1] as int;
    }
    if start + 5 <= |file| {
      var b := file[start + 3..start + 5];
      assert b[..1] == [file[start + 3]];
      assert BigEndian(b) == BigEndian([file[start + 3]]) * 256 + file[start + 4] as int;
    }
  }

  // ---------------------------------------------------------------------
  // RowReader
  // ---------------------------------------------------------------------

  /** `struct RowReader`: the cell pointers and the cell read at each. */
  datatype RowReader = RowReader(pointers: seq<nat>, cells: seq<Cell<LegacyRecord>>)

  /** The pointer array: each chunk of two bytes as a big-endian `u16`. */
  function PointerArray(buffer: seq<Byte>): (pointers: seq<nat>)
    ensures |pointers| == |ChunksExact(buffer, 2)|
  {
    var chunks := ChunksExact(buffer, 2);
    seq(|chunks|, i requires 0 <= i < |chunks| => BigEndian(chunks[i]))
  }

  /** The cell at a pointer: 40960 bytes from the page start plus the
      pointer, as far as the file holds them, then zeros (the read's error is
      ignored), decoded with the older record. */
  function CellAt(file: seq<Byte>, pageOffset: nat, pointer: nat): Outcome<Cell<LegacyRecord>> {
    CellFrom(ReadPadded(file, pageOffset + pointer, BUFFER_SIZE), LegacyRecordFrom)
  }

  /** The cell read at each pointer, counted from `pageOffset`. */
  function CellReader(file: seq<Byte>, pageOffset: nat): nat -> Outcome<Cell<LegacyRecord>> {
    (pointer: nat) => CellAt(file, pageOffset, pointer)
  }

  /** The first half of `RowReader::from`: the cell count is unwrapped (a
      short file panics), then the pointer array is read 8 bytes after the
      page start (a short file is the I/O error). */
  function RowPointers(file: seq<Byte>, pageNum: nat, pageSize: nat): Outcome<seq<nat>>
    requires pageNum >= 1
  {
    var count :- Unwrapped(GetCellCount(file, pageNum, pageSize));
    var buffer :- ReadExact(file, PageStartOffset(pageNum, pageSize) + MAX_PAGE_HEADER_SIZE, count * 2);
    Ok(PointerArray(buffer))
  }

  /** `RowReader::from`: the pointers, then one cell per pointer.  Pointers
      are added to the page start, which for page 1 already includes the
      file header. */
  function RowReaderFrom(file: seq<Byte>, pageNum: nat, pageSize: nat): Outcome<RowReader>
    requires pageNum >= 1
  {
    var pointers :- RowPointers(file, pageNum, pageSize);
    var cells :- ReadEach(CellReader(file, PageStartOffset(pageNum, pageSize)), pointers);
    Ok(RowReader(pointers, cells))
  }

  /** The two loops of `RowReader::from`. */
  method ReadRowReader(file: seq<Byte>, pageNum: nat, pageSize: nat) returns (r: Outcome<RowReader>)
    requires pageNum >= 1
    ensures r == RowReaderFrom(file, pageNum, pageSize)
  {
    var count := GetCellCount(file, pageNum, pageSize);
    if !count.Ok? {
      return Panic(Unwrap);
    }
    var pageOffset := PageStartOffset(pageNum, pageSize);
    var buffer := ReadExact(file, pageOffset + MAX_PAGE_HEADER_SIZE, count.value * 2);
    if !buffer.Ok? {
      return buffer.PropagateFailure();
    }
    var pointers := ReadPointers(buffer.value);
    assert RowPointers(file, pageNum, pageSize) == Ok(pointers);
    var cells := ReadCells(CellReader(file, pageOffset), pointers);
    if !cells.Ok? {
      return cells.PropagateFailure();
    }
    r := Ok(RowReader(pointers, cells.value));
  }

  /** The first loop: one big-endian `u16` per two-byte chunk. */
  method ReadPointers(buffer: seq<Byte>) returns (pointers: seq<nat>)
    ensures pointers == PointerArray(buffer)
  {
    var chunks := ChunksExact(buffer, 2);
    pointers := [];
    for i := 0 to |chunks|
      invariant |pointers| == i
      invariant forall k :: 0 <= k < i ==> pointers[k] == BigEndian(chunks[k])
    {
      pointers := pointers + [BigEndian(chunks[i])];
    }
  }

  /** The second loop: one cell per pointer, the first failure returned. */
  method ReadCells<T>(read: nat -> Outcome<T>, pointers: seq<nat>) returns (r: Outcome<seq<T>>)
    ensures r == ReadEach(read, pointers)
  {
    var cells: seq<T> := [];
    for i := 0 to |pointers|
      invariant ReadEach(read, pointers[..i]) == Ok(cells)
    {
      assert pointers[..i + 1][..i] == pointers[..i];
      var cell := read(pointers[i]);
      if !cell.Ok? {
        ReadEachPrefix(read, pointers, i + 1);
        return cell.PropagateFailure();
      }
      cells := cells + [cell.value];
    }
    assert pointers[..|pointers|] == pointers;
    r := Ok(cells);
  }

  /** Cell i of a successful run is the cell at pointer i. */
  lemma CellsAtEach(file: seq<Byte>, pageOffset: nat, pointers: seq<nat>)
    requires ReadEach(CellReader(file, pageOffset), pointers).Ok?
    ensures forall i :: 0 <= i < |pointers| ==>
              CellAt(file, pageOffset, pointers[i]) == Ok(ReadEach(CellReader(file, pageOffset), pointers).value[i])
  {
    var read := CellReader(file, pageOffset);
    ReadEachAt(read, pointers);
    forall i | 0 <= i < |pointers|
      ensures CellAt(file, pageOffset, pointers[i]) == read(pointers[i])
    {
    }
  }

  /** The pointer array holds the big-endian `u16`s of the buffer, in order. */
  lemma PointerArrayAt(buffer: seq<Byte>, count: nat)
    requires |buffer| == count * 2
    ensures |PointerArray(buffer)| == count
    ensures forall i :: 0 <= i < count ==> PointerArray(buffer)[i] == BigEndian(buffer[2 * i..2 * i + 2])
  {
    var chunks := ChunksExact(buffer, 2);
    ChunksExactCount(buffer, 2);
    forall i | 0 <= i < |chunks|
      ensures PointerArray(buffer)[i] == BigEndian(buffer[2 * i..2 * i + 2])
    {
      ChunkAt(buffer, 2, i);
      assert chunks[i] == buffer[i * 2..(i + 1) * 2];
    }
  }

  /** The pointer array of `count` pointers stored from `off` on: pointer i
      is the big-endian `u16` at `off + 2i`. */
  lemma PointerArrayIn(data: seq<Byte>, off: nat, end: nat, count: nat, pointers: seq<nat>)
    requires end == off + 2 * count && end <= |data|
    requires pointers == PointerArray(data[off..end])
    ensures |pointers| == count
    ensures forall i :: 0 <= i < count ==> pointers[i] == BigEndian(data[off + 2 * i..off + 2 * i + 2])
  {
    var buffer := data[off..end];
    PointerArrayAt(buffer, count);
    forall i | 0 <= i < count
      ensures pointers[i] == BigEndian(data[off + 2 * i..off + 2 * i + 2])
    {
      SliceOfSlice(data, off, end, 2 * i, 2 * i + 2);
    }
  }

  /** A row reader holds `cell_count` pointers, read big-endian from 8 bytes
      after the page start in file order, and exactly one cell per pointer,
      decoded from the page start plus that pointer. */
  lemma RowReaderShape(file: seq<Byte>, pageNum: nat, pageSize: nat)
    requires pageNum >= 1
    requires RowReaderFrom(file, pageNum, pageSize).Ok?
    ensures var start := PageStartOffset(pageNum, pageSize);
      var rr := RowReaderFrom(file, pageNum, pageSize).value;
      && GetCellCount(file, pageNum, pageSize) == Ok(|rr.pointers|)
      && |rr.cells| == |rr.pointers|
      && start + 8 + 2 * |rr.pointers| <= |file|
      && (forall i :: 0 <= i < |rr.pointers| ==>
            rr.pointers[i] == BigEndian(file[start + 8 + 2 * i..start + 8 + 2 * i + 2]))
      && (forall i :: 0 <= i < |rr.pointers| ==>
            CellAt(file, start, rr.pointers[i]) == Ok(rr.cells[i]))
  {
    var start := PageStartOffset(pageNum, pageSize);
    var rr := RowReaderFrom(file, pageNum, pageSize).value;
    RowReaderPointers(file, pageNum, pageSize, start, rr);
    CellsAtEach(file, start, rr.pointers);
  }

  lemma RowReaderPointers(file: seq<Byte>, pageNum: nat, pageSize: nat, start: nat, rr: RowReader)
    requires pageNum >= 1 && start == PageStartOffset(pageNum, pageSize)
    requires RowReaderFrom(file, pageNum, pageSize) == Ok(rr)
    ensures GetCellCount(file, pageNum, pageSize) == Ok(|rr.pointers|)
    ensures start + 8 + 2 * |rr.pointers| <= |file|
    ensures forall i :: 0 <= i < |rr.pointers| ==>
              rr.pointers[i] == BigEndian(file[start + 8 + 2 * i..start + 8 + 2 * i + 2])
    ensures ReadEach(CellReader(file, start), rr.pointers) == Ok(rr.cells)
  {
    assert RowPointers(file, pageNum, pageSize) == Ok(rr.pointers);
    RowPointersLayout(file, pageNum, pageSize, start, rr.pointers);
  }

  /** The pointer array lies 8 bytes after the page start, one `u16` per
      counted cell. */
  lemma RowPointersLayout(file: seq<Byte>, pageNum: nat, pageSize: nat, start: nat, pointers: seq<nat>)
    requires pageNum >= 1 && start == PageStartOffset(pageNum, pageSize)
    requires RowPointers(file, pageNum, pageSize) == Ok(pointers)
    ensures GetCellCount(file, pageNum, pageSize) == Ok(|pointers|)
    ensures start + 8 + 2 * |pointers| <= |file|
    ensures forall i :: 0 <= i < |pointers| ==>
              pointers[i] == BigEndian(file[start + 8 + 2 * i..start + 8 + 2 * i + 2])
  {
    var count := GetCellCount(file, pageNum, pageSize).value;
    var off := start + MAX_PAGE_HEADER_SIZE;
    assert pointers == PointerArray(file[off..off + count * 2]);
    PointerArrayIn(file, off, off + count * 2, count, pointers);
  }

  /** On page 1 the start already includes the 100-byte file header, so
      cell i is read from 100 bytes past its pointer, while the file format
      counts page 1's pointers from the start of the file. */
  lemma PageOneCellOffsets(file: seq<Byte>, pageSize: nat)
    requires RowReaderFrom(file, 1, pageSize).Ok?
    ensures var rr := RowReaderFrom(file, 1, pageSize).value;
      forall i :: 0 <= i < |rr.pointers| ==>
        CellFrom(ReadPadded(file, FILE_HEADER_SIZE + rr.pointers[i], BUFFER_SIZE), LegacyRecordFrom) == Ok(rr.cells[i])
  {
    RowReaderShape(file, 1, pageSize);
  }

  /** How a row reader fails: a page whose count bytes lie past the end of
      the file panics; a pointer array running past the end is the I/O
      error; otherwise only a cell can fail. */
  lemma RowReaderErrors(file: seq<Byte>, pageNum: nat, pageSize: nat)
    requires pageNum >= 1
    ensures var start := PageStartOffset(pageNum, pageSize);
      && (start + 5 > |file| ==> RowReaderFrom(file, pageNum, pageSize) == Panic(Unwrap))
      && (start + 5 <= |file| && start + 8 + 2 * BigEndian(file[start + 3..start + 5]) > |file| ==>
            RowReaderFrom(file, pageNum, pageSize) == Err(Io))
  {
  }

  /** `RowReader::read`: the values of row `n`; past the last cell it panics. */
  function Read(rr: RowReader, n: nat): (r: Outcome<seq<LegacyValue>>)
    ensures r.Ok? <==> n < |rr.cells|
    ensures r.Ok? ==> r.value == rr.cells[n].record.columns
    ensures !r.Ok? ==> r == Panic(OutOfRange)
  {
    if n < |rr.cells| then Ok(rr.cells[n].record.columns) else Panic(OutOfRange)
  }

  /** `struct PageReader`. */
  datatype PageReader = PageReader(pageHeader: PageHeader, rowReader: RowReader, pageNum: nat)

  /** `PageReader::from`: both readers are unwrapped, the header first. */
  function PageReaderFrom(file: seq<Byte>, pageNum: nat, pageSize: nat): (r: Outcome<PageReader>)
    requires pageNum >= 1
    ensures r.Ok? <==> PageHeaderFrom(file, pageNum, pageSize).Ok? && RowReaderFrom(file, pageNum, pageSize).Ok?
    ensures r.Ok? ==> r.value == PageReader(PageHeaderFrom(file, pageNum, pageSize).value,
                                             RowReaderFrom(file, pageNum, pageSize).value, pageNum)
    ensures !r.Err?
  {
    var header := Unwrapped(PageHeaderFrom(file, pageNum, pageSize));
    if !header.Ok? then header.PropagateFailure()
    else
      var rows := Unwrapped(RowReaderFrom(file, pageNum, pageSize));
      if !rows.Ok? then rows.PropagateFailure()
      else Ok(PageReader(header.value, rows.value, pageNum))
  }

  /** `PageReader::table_count`: the page header's count. */
  function TableCount(p: PageReader): nat {
    p.pageHeader.cellCount
  }

  // ---------------------------------------------------------------------
  // Schema lookups over page 1 (`Database` of src/page.rs)
  // ---------------------------------------------------------------------

  /** The part of the older `Database` the lookups use: its page readers,
      page 1 first. */
  datatype LegacyDatabase = LegacyDatabase(fileHeader: FileHeader, pages: seq<PageReader>)

  /** `read(n)[1].to_string()`: the name column of row `n`. */
  function NameAt(rr: RowReader, n: nat): Outcome<seq<Byte>> {
    var row :- Read(rr, n);
    if |row| < 2 then Panic(OutOfRange) else Ok(ToText(row[1]))
  }

  /** The names of the first `k` rows, in order. */
  function NamesUpTo(rr: RowReader, k: nat): (r: Outcome<seq<seq<Byte>>>)
    ensures r.Ok? ==> |r.value| == k
  {
    if k == 0 then Ok([])
    else
      var init :- NamesUpTo(rr, k - 1);
      var name :- NameAt(rr, k - 1);
      Ok(init + [name])
  }

  /** `get_table_names`: one name per pointer of page 1; no pages panics. */
  function TableNames(db: LegacyDatabase): Outcome<seq<seq<Byte>>> {
    if db.pages == [] then Panic(OutOfRange)
    else NamesUpTo(db.pages[0].rowReader, |db.pages[0].rowReader.pointers|)
  }

  /** The loop of `get_table_names`. */
  method GetTableNames(db: LegacyDatabase) returns (r: Outcome<seq<seq<Byte>>>)
    ensures r == TableNames(db)
  {
    if db.pages == [] {
      return Panic(OutOfRange);
    }
    var firstPage := db.pages[0];
    var result: seq<seq<Byte>> := [];
    for n := 0 to |firstPage.rowReader.pointers|
      invariant NamesUpTo(firstPage.rowReader, n) == Ok(result)
    {
      var name := NameAt(firstPage.rowReader, n);
      if !name.Ok? {
        NamesUpToFails(firstPage.rowReader, n + 1, |firstPage.rowReader.pointers|);
        return name.PropagateFailure();
      }
      result := result + [name.value];
    }
    r := Ok(result);
  }

  /** Once a name fails, every longer run of the loop fails the same way. */
  lemma {:induction false} NamesUpToFails(rr: RowReader, n: nat, k: nat)
    requires n <= k
    requires !NamesUpTo(rr, n).Ok?
    ensures NamesUpTo(rr, k) == NamesUpTo(rr, n)
    decreases k - n
  {
    if n < k {
      NamesUpToFails(rr, n, k - 1);
    }
  }

  /** The table names exist exactly when page 1 has `k` rows and each of
      them has at least two columns. */
  lemma {:induction false} TableNamesExist(rr: RowReader, k: nat)
    ensures NamesUpTo(rr, k).Ok? <==>
              forall i :: 0 <= i < k ==> i < |rr.cells| && |rr.cells[i].record.columns| >= 2
  {
    if k > 0 {
      TableNamesExist(rr, k - 1);
      var ok := NamesUpTo(rr, k - 1).Ok? && NameAt(rr, k - 1).Ok?;
      assert NamesUpTo(rr, k).Ok? == ok;
      assert NameAt(rr, k - 1).Ok? <==> k - 1 < |rr.cells| && |rr.cells[k - 1].record.columns| >= 2;
    }
  }

  /** Name i is the text of column 1 of page 1's row i, in pointer order. */
  lemma {:induction false} TableNamesValues(rr: RowReader, k: nat)
    requires NamesUpTo(rr, k).Ok?
    ensures forall i :: 0 <= i < k ==>
              i < |rr.cells| && |rr.cells[i].record.columns| >= 2 &&
              NamesUpTo(rr, k).value[i] == ToText(rr.cells[i].record.columns[1])
  {
    if k > 0 {
      var init := NamesUpTo(rr, k - 1).value;
      TableNamesValues(rr, k - 1);
      var names := NamesUpTo(rr, k).value;
      assert names == init + [NameAt(rr, k - 1).value];
      forall i | 0 <= i < k
        ensures i < |rr.cells| && |rr.cells[i].record.columns| >= 2
        ensures names[i] == ToText(rr.cells[i].record.columns[1])
      {
        if i < k - 1 {
          assert names[i] == init[i];
        }
      }
    }
  }

  /** Row `n` names the table and its column 3 is an integer. */
  predicate Hit(rr: RowReader, name: seq<Byte>, n: nat) {
    && n < |rr.cells|
    && |rr.cells[n].record.columns| >= 4
    && ToText(rr.cells[n].record.columns[1]) == name
    && rr.cells[n].record.columns[3].Integer?
  }

  /** The search of `get_table_location` from row `n` on. */
  function LocationFrom(rr: RowReader, name: seq<Byte>, n: nat): Outcome<nat>
    decreases |rr.pointers| - n
  {
    if n >= |rr.pointers| then Ok(0)
    else
      var row :- Read(rr, n);
      if |row| < 2 then Panic(OutOfRange)
      else if ToText(row[1]) == name then
        if |row| < 4 then Panic(OutOfRange)
        else if row[3].Integer? then Ok(AsUsize(row[3].i))
        else LocationFrom(rr, name, n + 1)
      else LocationFrom(rr, name, n + 1)
  }

  /** `get_table_location`: the root page of the named table, or 0. */
  function TableLocation(db: LegacyDatabase, name: seq<Byte>): Outcome<nat> {
    if db.pages == [] then Panic(OutOfRange) else LocationFrom(db.pages[0].rowReader, name, 0)
  }

  /** The loop of `get_table_location`, returning from inside it. */
  method GetTableLocation(db: LegacyDatabase, name: seq<Byte>) returns (r: Outcome<nat>)
    ensures r == TableLocation(db, name)
  {
    if db.pages == [] {
      return Panic(OutOfRange);
    }
    var rr := db.pages[0].rowReader;
    for n := 0 to |rr.pointers|
      invariant LocationFrom(rr, name, n) == LocationFrom(rr, name, 0)
    {
      var row := Read(rr, n);
      if !row.Ok? {
        return row.PropagateFailure();
      }
      if |row.value| < 2 {
        return Panic(OutOfRange);
      }
      if ToText(row.value[1]) == name {
        if |row.value| < 4 {
          return Panic(OutOfRange);
        }
        match row.value[3]
        case Integer(i) =>
          return Ok(AsUsize(i));
        case _ =>
      }
    }
    r := Ok(0);
  }

  /** The location is column 3 of the first row that names the table with
      an integer there, taken `as usize`; with no such row it is 0. */
  lemma {:induction false} LocationIsFirstHit(rr: RowReader, name: seq<Byte>, n: nat)
    requires LocationFrom(rr, name, n).Ok?
    ensures forall j :: (n <= j < |rr.pointers| && Hit(rr, name, j) &&
                         forall k :: n <= k < j ==> !Hit(rr, name, k)) ==>
              LocationFrom(rr, name, n).value == AsUsize(rr.cells[j].record.columns[3].i)
    ensures (forall j :: n <= j < |rr.pointers| ==> !Hit(rr, name, j)) ==>
              LocationFrom(rr, name, n).value == 0
    decreases |rr.pointers| - n
  {
    if n < |rr.pointers| && !Hit(rr, name, n) {
      LocationIsFirstHit(rr, name, n + 1);
    }
  }

  /** `count_rows`: the number of cells on the table's root page.  A table
      that is not found (location 0) underflows `root_num - 1`. */
  function CountRows(db: LegacyDatabase, name: seq<Byte>): (r: Outcome<nat>)
    ensures r.Ok? ==>
      && TableLocation(db, name).Ok?
      && 1 <= TableLocation(db, name).value <= |db.pages|
      && r.value == |db.pages[TableLocation(db, name).value - 1].rowReader.cells|
    ensures TableLocation(db, name) == Ok(0) ==> r == Panic(Overflow)
  {
    var root :- TableLocation(db, name);
    if root == 0 then Panic(Overflow)
    else if root - 1 >= |db.pages| then Panic(OutOfRange)
    else Ok(|db.pages[root - 1].rowReader.cells|)
  }
}
