/** The page as the scanner and the page cache hold it: a table leaf page
    decoded from the bytes of one page, and the arithmetic that cuts those
    bytes out of the file (`load_raw_page`, src/page_scanner.rs:38-55 and
    src/database.rs:71-91).  `Page` and `TableLeafPage` are not defined in
    src/page.rs; the leaf page holds the cells of the newer record format,
    each read from its cell pointer to the end of the raw page.  This is
    not the way `RowReader::from` reads them: on page 1 a pointer p
    designates file offset p here, where `RowReader::from` reads at 100 + p
    in a buffer padded to 40960 bytes, and decodes the older record. */
module RawPages {
  import opened Outcomes
  import opened Bytes
  import opened Utils
  import opened Records
  import opened RecordColumns
  import opened Cells
  import opened Pages

  /** A table b-tree leaf page: its cells in pointer order. */
  datatype TableLeafPage = TableLeafPage(cells: seq<Cell<Record>>)

  /** The four b-tree page kinds; only the table leaf carries its content. */
  datatype Page =
    | TableLeaf(leaf: TableLeafPage)
    | TableInterior
    | IndexLeaf
    | IndexInterior

  /** How many bytes `load_raw_page` reads for a page: page 1 loses the
      100-byte file header.  `page_size - 100` underflows below 100. */
  function RawPageSize(pageNum: nat, pageSize: nat): Outcome<nat>
    requires pageNum >= 1
  {
    if pageNum == 1 then
      if pageSize < FILE_HEADER_SIZE then Panic(Overflow) else Ok(pageSize - FILE_HEADER_SIZE)
    else Ok(pageSize)
  }

  /** `load_raw_page`: page 0 underflows `page_num - 1`; page 1 is read from
      offset 100, page n from (n - 1) * page_size; a file too short for the
      whole page panics on the unwrapped read. */
  function LoadRawPage(file: seq<Byte>, pageNum: nat, pageSize: nat): Outcome<seq<Byte>> {
    if pageNum == 0 then Panic(Overflow)
    else
      var size :- RawPageSize(pageNum, pageSize);
      var offset := if pageNum == 1 then FILE_HEADER_SIZE else (pageNum - 1) * pageSize;
      Unwrapped(ReadExact(file, offset, size))
  }

  /** The raw page is the file from where the page's content starts (the
      start `get_page_start_offset` gives) to the end of the page, n * s;
      it fails only for page 0, for a first page smaller than the file
      header, or on a file that ends before the page does. */
  lemma RawPageSpan(file: seq<Byte>, pageNum: nat, pageSize: nat)
    ensures pageNum == 0 ==> LoadRawPage(file, pageNum, pageSize) == Panic(Overflow)
    ensures pageNum == 1 && pageSize < FILE_HEADER_SIZE ==>
              LoadRawPage(file, pageNum, pageSize) == Panic(Overflow)
    ensures pageNum >= 1 && (pageNum > 1 || pageSize >= FILE_HEADER_SIZE) ==>
              var start := PageStartOffset(pageNum, pageSize);
              && start <= pageNum * pageSize
              && (LoadRawPage(file, pageNum, pageSize).Ok? <==> pageNum * pageSize <= |file|)
              && (LoadRawPage(file, pageNum, pageSize).Ok? ==>
                    LoadRawPage(file, pageNum, pageSize).value == file[start..pageNum * pageSize])
              && (!LoadRawPage(file, pageNum, pageSize).Ok? ==>
                    LoadRawPage(file, pageNum, pageSize) == Panic(Unwrap))
  {
    if pageNum >= 1 {
      MulSucc(pageNum - 1, pageSize);
    }
  }

  /** The sample database's pages: page 1 is bytes 100..4096, page 2 is
      bytes 4096..8192. */
  lemma SamplePages(file: seq<Byte>)
    requires |file| == 4 * 4096
    ensures LoadRawPage(file, 1, 4096) == Ok(file[100..4096])
    ensures LoadRawPage(file, 2, 4096) == Ok(file[4096..8192])
  {
    RawPageSpan(file, 1, 4096);
    RawPageSpan(file, 2, 4096);
  }

  /** How far the page's own bytes are shifted from the offsets the cell
      pointers count from: on page 1 the pointers count from the start of
      the file, 100 bytes before the raw page begins. */
  function Shift(isFirstPage: bool): nat {
    if isFirstPage then FILE_HEADER_SIZE else 0
  }

  /** The cell a pointer designates, decoded with the newer record to the
      end of the page.  A pointer into the file header underflows; one past
      the page's end is out of range; a cell that fails to decode panics. */
  function LeafCellAt(raw: seq<Byte>, shift: nat, pointer: nat): Outcome<Cell<Record>> {
    if pointer < shift then Panic(Overflow)
    else if pointer - shift > |raw| then Panic(OutOfRange)
    else Unwrapped(CellFrom(raw[pointer - shift..], RecordFrom))
  }

  /** The cell read at each pointer of a raw page. */
  function LeafReader(raw: seq<Byte>, shift: nat): nat -> Outcome<Cell<Record>> {
    (pointer: nat) => LeafCellAt(raw, shift, pointer)
  }

  /** The cell pointers of a raw page: the big-endian `u16` count at page
      offset 3, then that many big-endian `u16`s from page offset 8; slices
      outside the raw page panic. */
  function LeafPointers(raw: seq<Byte>): (r: Outcome<seq<nat>>)
    ensures r.Ok? <==> 5 <= |raw| && MAX_PAGE_HEADER_SIZE + 2 * BigEndian(raw[3..5]) <= |raw|
    ensures !r.Ok? ==> r == Panic(OutOfRange)
  {
    if |raw| < 5 then Panic(OutOfRange)
    else
      var count := BigEndian(raw[3..5]);
      if MAX_PAGE_HEADER_SIZE + 2 * count > |raw| then Panic(OutOfRange)
      else Ok(PointerArray(raw[MAX_PAGE_HEADER_SIZE..MAX_PAGE_HEADER_SIZE + 2 * count]))
  }

  /** `TableLeafPage::from(raw, is_first_page)`: one cell per pointer. */
  function TableLeafPageFrom(raw: seq<Byte>, isFirstPage: bool): (r: Outcome<TableLeafPage>)
    ensures r.Ok? ==> LeafPointers(raw).Ok? &&
                      ReadEach(LeafReader(raw, Shift(isFirstPage)), LeafPointers(raw).value) == Ok(r.value.cells)
  {
    var pointers := LeafPointers(raw);
    if !pointers.Ok? then pointers.PropagateFailure()
    else
      var cells := ReadEach(LeafReader(raw, Shift(isFirstPage)), pointers.value);
      if cells.Ok? then Ok(TableLeafPage(cells.value)) else cells.PropagateFailure()
  }

  /** The pointer array read back against the raw page: one pointer per
      counted cell, pointer i at page offset 8 + 2i. */
  lemma LeafPointersAt(raw: seq<Byte>)
    requires LeafPointers(raw).Ok?
    ensures |LeafPointers(raw).value| == BigEndian(raw[3..5])
    ensures forall i :: 0 <= i < |LeafPointers(raw).value| ==>
              8 + 2 * i + 2 <= |raw| && LeafPointers(raw).value[i] == BigEndian(raw[8 + 2 * i..8 + 2 * i + 2])
  {
    var count := BigEndian(raw[3..5]);
    PointerArrayIn(raw, 8, MAX_PAGE_HEADER_SIZE + 2 * count, count, LeafPointers(raw).value);
  }

  /** Cell i of a successful run is the cell at pointer i. */
  lemma LeafCellsEach(raw: seq<Byte>, shift: nat, pointers: seq<nat>)
    requires ReadEach(LeafReader(raw, shift), pointers).Ok?
    ensures forall i :: 0 <= i < |pointers| ==>
              LeafCellAt(raw, shift, pointers[i]) == Ok(ReadEach(LeafReader(raw, shift), pointers).value[i])
  {
    var read := LeafReader(raw, shift);
    ReadEachAt(read, pointers);
    forall i | 0 <= i < |pointers|
      ensures LeafCellAt(raw, shift, pointers[i]) == read(pointers[i])
    {
    }
  }

  /** A pointer that yields a cell lies within the page, and the cell is
      the one decoded from there. */
  lemma LeafCellAtOk(raw: seq<Byte>, shift: nat, pointer: nat)
    requires LeafCellAt(raw, shift, pointer).Ok?
    ensures shift <= pointer <= shift + |raw|
    ensures CellFrom(raw[pointer - shift..], RecordFrom) == LeafCellAt(raw, shift, pointer)
  {
  }

  /** The pointer stored at `at` of a raw page, less the shift, is where in
      the page `cell` is decoded from, up to the page's end. */
  predicate RawCellStored(raw: seq<Byte>, at: nat, shift: nat, cell: Cell<Record>) {
    && at + 2 <= |raw|
    && shift <= BigEndian(raw[at..at + 2]) <= shift + |raw|
    && CellFrom(raw[BigEndian(raw[at..at + 2]) - shift..], RecordFrom) == Ok(cell)
  }

  /** The cell count of a leaf page is the big-endian `u16` at offset 3, and
      cell i is decoded, to the end of the page, from the offset the i-th
      pointer of the array at offset 8 gives, counted from the b-tree page's
      start (the file's start for page 1). */
  lemma LeafPageShape(raw: seq<Byte>, isFirstPage: bool, cells: seq<Cell<Record>>)
    requires TableLeafPageFrom(raw, isFirstPage) == Ok(TableLeafPage(cells))
    ensures 5 <= |raw|
    ensures |cells| == BigEndian(raw[3..5])
    ensures 8 + 2 * |cells| <= |raw|
    ensures forall i :: 0 <= i < |cells| ==> RawCellStored(raw, 8 + 2 * i, Shift(isFirstPage), cells[i])
  {
    var pointers := LeafPointers(raw).value;
    var shift := Shift(isFirstPage);
    LeafPointersAt(raw);
    LeafCellsEach(raw, shift, pointers);
    forall i | 0 <= i < |cells|
      ensures RawCellStored(raw, 8 + 2 * i, shift, cells[i])
    {
      LeafCellAtOk(raw, shift, pointers[i]);
    }
  }

  /** A page with fewer than 5 bytes, or too short for its pointer array,
      panics; so does a pointer into page 1's file header. */
  lemma LeafPageErrors(raw: seq<Byte>, isFirstPage: bool)
    ensures |raw| < 5 ==> TableLeafPageFrom(raw, isFirstPage) == Panic(OutOfRange)
    ensures |raw| >= 5 && 8 + 2 * BigEndian(raw[3..5]) > |raw| ==>
              TableLeafPageFrom(raw, isFirstPage) == Panic(OutOfRange)
    ensures !TableLeafPageFrom(raw, isFirstPage).Err?
  {
    var r := TableLeafPageFrom(raw, isFirstPage);
    if |raw| >= 5 && 8 + 2 * BigEndian(raw[3..5]) <= |raw| {
      LeafCellsNeverErr(raw, Shift(isFirstPage), LeafPointers(raw).value);
    }
  }

  /** Cell decoding is unwrapped: no error value comes out of it. */
  lemma LeafCellsNeverErr(raw: seq<Byte>, shift: nat, pointers: seq<nat>)
    ensures !ReadEach(LeafReader(raw, shift), pointers).Err?
  {
    var read := LeafReader(raw, shift);
    forall p
      ensures !read(p).Err?
    {
      assert read(p) == LeafCellAt(raw, shift, p);
    }
    ReadEachNeverErr(read, pointers);
  }

  /** The leaf page of page `n` as the scanner and the cache build it. */
  function LoadLeaf(file: seq<Byte>, pageNum: nat, pageSize: nat): Outcome<TableLeafPage> {
    var raw := LoadRawPage(file, pageNum, pageSize);
    if raw.Ok? then TableLeafPageFrom(raw.value, pageNum == 1) else raw.PropagateFailure()
  }

  /** A loaded leaf page is the decoding of the file's bytes from the page's
      content start to its end. */
  lemma LoadLeafParts(file: seq<Byte>, pageNum: nat, pageSize: nat)
    requires LoadLeaf(file, pageNum, pageSize).Ok?
    ensures pageNum >= 1
    ensures PageStartOffset(pageNum, pageSize) <= pageNum * pageSize <= |file|
    ensures TableLeafPageFrom(file[PageStartOffset(pageNum, pageSize)..pageNum * pageSize], pageNum == 1)
            == LoadLeaf(file, pageNum, pageSize)
  {
    RawPageSpan(file, pageNum, pageSize);
  }

  /** The pointer stored at `at` designates, counted from `base`, a place
      between `lo` and `end` from which `cell` decodes up to `end`. */
  predicate CellStored(file: seq<Byte>, at: nat, base: nat, lo: nat, end: nat, cell: Cell<Record>) {
    && at + 2 <= |file|
    && end <= |file|
    && lo <= base + BigEndian(file[at..at + 2]) <= end
    && CellFrom(file[base + BigEndian(file[at..at + 2])..end], RecordFrom) == Ok(cell)
  }

  /** Every cell is stored where its pointer, the i-th of the array at
      `start + 8`, says. */
  predicate CellsStored(file: seq<Byte>, start: nat, base: nat, end: nat, cells: seq<Cell<Record>>) {
    forall i :: 0 <= i < |cells| ==> CellStored(file, start + 8 + 2 * i, base, start, end, cells[i])
  }

  /** Read back against the file: page n's cell count lies at 3 bytes past
      where its content starts, and cell i is decoded from (n - 1) * s plus
      the i-th pointer, up to the end of the page, n * s.  This is where the
      file format puts cells, page 1 included. */
  lemma LeafCellsAtFileOffsets(file: seq<Byte>, pageNum: nat, pageSize: nat, cells: seq<Cell<Record>>)
    requires LoadLeaf(file, pageNum, pageSize) == Ok(TableLeafPage(cells))
    ensures pageNum >= 1
    ensures PageStartOffset(pageNum, pageSize) + 8 + 2 * |cells| <= pageNum * pageSize <= |file|
    ensures |cells| == BigEndian(file[PageStartOffset(pageNum, pageSize) + 3..PageStartOffset(pageNum, pageSize) + 5])
    ensures CellsStored(file, PageStartOffset(pageNum, pageSize), PageBase(pageNum, pageSize), pageNum * pageSize, cells)
  {
    LoadLeafParts(file, pageNum, pageSize);
    var start := PageStartOffset(pageNum, pageSize);
    var end := pageNum * pageSize;
    var base := PageBase(pageNum, pageSize);
    LeafPageShape(file[start..end], pageNum == 1, cells);
    PageSlices(file, start, end, Shift(pageNum == 1), base, cells);
  }

  /** `LeafPageShape` moved from the raw page to the file it was cut from. */
  lemma PageSlices(file: seq<Byte>, start: nat, end: nat, shift: nat, base: nat, cells: seq<Cell<Record>>)
    requires start + 5 <= end <= |file| && base + shift == start
    requires |cells| == BigEndian(file[start..end][3..5]) && 8 + 2 * |cells| <= end - start
    requires forall i :: 0 <= i < |cells| ==> RawCellStored(file[start..end], 8 + 2 * i, shift, cells[i])
    ensures start + 8 + 2 * |cells| <= end
    ensures |cells| == BigEndian(file[start + 3..start + 5])
    ensures CellsStored(file, start, base, end, cells)
  {
    SliceOfSlice(file, start, end, 3, 5);
    CellsStoredInFile(file, start, end, shift, base, cells);
  }

  /** The cells of `PageSlices`, one by one. */
  lemma CellsStoredInFile(file: seq<Byte>, start: nat, end: nat, shift: nat, base: nat, cells: seq<Cell<Record>>)
    requires start <= end <= |file| && base + shift == start
    requires forall i :: 0 <= i < |cells| ==> RawCellStored(file[start..end], 8 + 2 * i, shift, cells[i])
    ensures CellsStored(file, start, base, end, cells)
  {
    forall i | 0 <= i < |cells|
      ensures CellStored(file, start + 8 + 2 * i, base, start, end, cells[i])
    {
      CellStoredInFile(file, start, end, shift, base, i, cells[i]);
    }
  }

  /** One cell of `PageSlices`: the i-th pointer. */
  lemma CellStoredInFile(file: seq<Byte>, start: nat, end: nat, shift: nat, base: nat, i: nat, cell: Cell<Record>)
    requires start <= end <= |file| && base + shift == start
    requires RawCellStored(file[start..end], 8 + 2 * i, shift, cell)
    ensures CellStored(file, start + 8 + 2 * i, base, start, end, cell)
  {
    PointedCellInFile(file, start, end, shift, base, i, RecordFrom, cell);
  }

  /** The cell the i-th pointer of the page slice designates is read the
      same from the whole file, whatever the record decoder. */
  lemma PointedCellInFile<R>(file: seq<Byte>, start: nat, end: nat, shift: nat, base: nat, i: nat,
                             decodeRecord: seq<Byte> -> Outcome<R>, cell: Cell<R>)
    requires start <= end <= |file| && base + shift == start && 8 + 2 * i + 2 <= end - start
    requires shift <= BigEndian(file[start..end][8 + 2 * i..8 + 2 * i + 2]) <= shift + (end - start)
    requires CellFrom(file[start..end][BigEndian(file[start..end][8 + 2 * i..8 + 2 * i + 2]) - shift..],
                      decodeRecord) == Ok(cell)
    ensures BigEndian(file[start..end][8 + 2 * i..8 + 2 * i + 2])
            == BigEndian(file[start + 8 + 2 * i..start + 8 + 2 * i + 2])
    ensures CellFrom(file[base + BigEndian(file[start + 8 + 2 * i..start + 8 + 2 * i + 2])..end],
                     decodeRecord) == Ok(cell)
  {
    PointedInFile(file, start, end, shift, base, i, (bytes: seq<Byte>) => CellFrom(bytes, decodeRecord), Ok(cell));
  }

  /** Whatever is read from the bytes the i-th pointer of the page slice
      designates is read the same from the whole file. */
  lemma PointedInFile<T>(file: seq<Byte>, start: nat, end: nat, shift: nat, base: nat, i: nat,
                         read: seq<Byte> -> T, x: T)
    requires start <= end <= |file| && base + shift == start && 8 + 2 * i + 2 <= end - start
    requires shift <= BigEndian(file[start..end][8 + 2 * i..8 + 2 * i + 2]) <= shift + (end - start)
    requires read(file[start..end][BigEndian(file[start..end][8 + 2 * i..8 + 2 * i + 2]) - shift..]) == x
    ensures BigEndian(file[start..end][8 + 2 * i..8 + 2 * i + 2])
            == BigEndian(file[start + 8 + 2 * i..start + 8 + 2 * i + 2])
    ensures read(file[base + BigEndian(file[start + 8 + 2 * i..start + 8 + 2 * i + 2])..end]) == x
  {
    SliceOfSlice(file, start, end, 8 + 2 * i, 8 + 2 * i + 2);
    var k := BigEndian(file[start..end][8 + 2 * i..8 + 2 * i + 2]) - shift;
    SuffixOfSlice(file, start, end, k);
  }
}
