# RQLite page and record decoding, modelled in Dafny

RQLite is a small read-only reader for SQLite database files, written in Rust.
This project models its decoding chain. The chain runs from the bytes of the
file to typed column values:

- the file header (page size, page count);
- the start of each page and the raw page cut out of the file;
- the b-tree page header's cell count and the cell pointer array;
- the table-leaf cell (payload-size varint, rowid varint, record);
- the record (a header of serial-type varints, then a body walked with a cursor);
- the varint reader and the serial-type table.

On top of that chain sit three stateful parts:

- the forward-only record cursor (`PositionedPage` and `PageScanner`);
- the `Database` that caches decoded pages by page number;
- the older page-reader code in `src/page.rs`, which answers schema lookups
  over page 1 (table names, the root page of a table, row counts).

The repository is part-way through a rewrite, so two decoders coexist. The
newer record decoder (`src/record.rs`) and the older one (`src/page.rs`)
run the same header/body loop. That loop is stated once (`Records.Walk`),
over a column decoder, and each copy supplies its own decoder. The two cell
decoders are identical, so one generic `Cells.CellFrom` serves both.

The file is a sequence of bytes (`Bytes.Byte` is `0..255`). Every operation
returns an `Outcome`, which keeps apart:

- the errors the Rust code propagates with `?` (`Io`, `Offset`, `Utf8`);
- the panics (`unwrap` of an error, `panic!`/`unreachable!`, out-of-range
  indexing, integer underflow);
- `Diverge`, for the record loop that never ends.

The source's own behaviour is modelled, defects included. Where the
intended behaviour differs, "## Findings" states both.

Modules, one per source file:

- `Bytes` and `Outcomes` hold the shared byte and outcome vocabulary.
- `Utils` models `src/utils.rs`.
- `SerialTypes` models `src/serial_type.rs`.
- `Records` and `RecordColumns` model `src/record.rs`.
- `LegacyRecords` models the older record in `src/page.rs`.
- `Cells` models `src/cell.rs` and the older `Cell::from` in `src/page.rs`.
- `Pages` models the rest of `src/page.rs`.
- `RawPages` models the raw page and the table leaf page that the scanner
  and the database build.
- `PageScanners` models `src/page_scanner.rs`.
- `Databases` models `src/database.rs`.

## Model

| member | source | states |
|---|---|---|
| Utils.ReadVarint | src/utils.rs:63-79 | the loop returns the byte count `VarintLen` and the `i64` reading of the 64-bit accumulator, in which each byte shifts in 7 bits and the ninth byte shifts in all 8 bits |
| Utils.ReadVarintBounds | src/utils.rs:66-67 | at most nine bytes are read and never more than there are; zero bytes exactly when the input is empty |
| Utils.VarintLenShape | src/utils.rs:66-76 | every byte read before the last has its high bit set; a varint shorter than nine bytes ends on a byte with the high bit clear or at the end of the input |
| Utils.VarintStopsAtTerminator | src/utils.rs:72-75 | among bytes 0..7, decoding stops right after the first byte below 0x80, and the value is the big-endian number formed by the low 7 bits of each byte |
| Utils.VarintAccExact | src/utils.rs:64-75 | up to eight bytes, the 64-bit shifts lose no bit: the accumulator equals the 7-bit big-endian number |
| Utils.VarintNinthByte | src/utils.rs:68-71 | when bytes 0..7 all have the high bit set, byte 8 is read, contributes all 8 bits and ends the varint |
| Utils.VarintAllOnes | src/utils.rs:64-71 | nine 0xFF bytes fill all 64 bits and read as -1 |
| Utils.VarintSingleByte | src/utils.rs:72-75 | one byte `b < 0x80` decodes to `(b, 1)`, whatever follows it |
| Utils.VarintEmpty | src/utils.rs:64-78 | empty input gives `(0, 0)` |
| Utils.EncodeVarintShape | src/utils.rs:63-79 | the shortest encoding of a value below 2^56: continuation bytes have the high bit set, the last one has it clear, and the 7-bit value is the input |
| Utils.ContinuationBytesHigh | src/utils.rs:72-75 | every leading byte of an encoding has its high bit set |
| Utils.ContinuationBytesValue | src/utils.rs:72-75 | read as base-128 digits, the leading bytes of an encoding give back the value they were made from |
| Utils.VarintRoundTrip | src/utils.rs:63-79 | decoding an encoded value returns the value and the encoding's length, whatever bytes follow |
| Utils.VarintLengthIs | src/utils.rs:63-79 | a value below 2^56 with k base-128 digits encodes in exactly k bytes |
| Utils.PageTypeRoundTrip | src/utils.rs:81-88 | `GetPageType`: bytes 2, 5, 10 and 13 map to their page types and back; a byte is accepted iff it is the flag byte of the returned type; every other byte panics |
| Utils.ChunksExactCount | src/utils.rs:21-26 | `ChunksExact`, the model of `chunks_exact(n)`, yields floor(len/n) chunks, the remainder being dropped |
| Utils.ChunkAt | src/utils.rs:21-26 | chunk i is `s[i*n..(i+1)*n]`, in order |
| Utils.ArrayIter2.constructor | src/utils.rs:54-61 | the cursor starts at index 0 over the given slice |
| Utils.ArrayIter2.Next | src/utils.rs:37-47 | returns `underlying[index..index+N]` and advances by exactly N, or returns None and stays put when fewer than N remain; from an aligned index, the result is the matching `chunks_exact` chunk |
| Bytes.BigEndianRoundTrip | src/page.rs:194-195 | writing a value in n big-endian bytes and reading it back gives the value |
| Bytes.BigEndianBytesOf | src/page.rs:194-195 | reading n bytes as big-endian and writing the value back gives the same bytes |
| Bytes.ToSigned | src/record.rs:49-92 | two's-complement reading of an n-byte value: in range, negative iff the sign bit is set, inverse of the bit pattern |
| Bytes.SignedRoundTrip | src/record.rs:53-92 | every value that fits in n bytes survives writing and reading back |
| Bytes.ToI64 | src/utils.rs:64-72 | the `i64` reading of a 64-bit pattern is in the `i64` range and is the pattern itself below 2^63 |
| Bytes.AsUsize | src/page.rs:139 | `as usize` on a 64-bit target is below 2^64 and leaves a non-negative value unchanged |
| Bytes.ReadExact | src/page.rs:190-192 | `read_exact` after a seek succeeds iff n bytes follow the offset, gives exactly those bytes, and otherwise is the I/O error |
| Bytes.ReadPadded | src/page.rs:290-292 | a zero buffer filled by a `read_exact` whose error is ignored holds the file's bytes where they exist and zeros past the end |
| Bytes.Subslice | src/record.rs:39-41 | a slice `data[from..from+n]` exists iff it lies within the data; otherwise it panics out of range |
| Bytes.AsciiIsUtf8 | src/record.rs:44-45 | ASCII text passes the UTF-8 check |
| SerialTypes.TableMatchesValues | src/serial_type.rs:3-18 | the table's width for the tag of a well-formed value is the number of bytes that store it, and the tag is never reserved |
| Records.DecodeRecord | src/record.rs:28-117 | reading the header size and running the cursor loop computes `WalkRecord`: the header/body walk over a column decoder, shared by both record decoders |
| Records.DecodeColumns | src/record.rs:32-114 | the while loop from any pair of cursors computes `Walk` from them: the columns pushed so far followed by what the rest of the walk yields |
| Records.WalkStep | src/record.rs:33-113 | one pass: read a tag at the tag cursor, decode one column at the body cursor, push it, and advance both cursors by what was read |
| Records.WalkIsHeaderThenBody | src/record.rs:30-114 | a successful walk reads a header of tags that tiles the range up to the header size exactly, then decodes one column per tag from the header size onwards |
| Records.WalkEndsAtHeadSize | src/record.rs:33-34 | a walk ends only with the tag cursor exactly on the header size, which lies within the data |
| Records.BodyOffsets | src/record.rs:106-113 | column 0 starts at the body start, and each next column starts where the previous one ended |
| RecordColumns.DecodeColumnFollowsTable | src/record.rs:37-104 | `DecodeColumn`, one pass of the column decoding: a decoded column's width is the serial-type table's width for its tag, and its value is the one the table's meaning column gives |
| RecordColumns.DecodeColumnSucceeds | src/record.rs:37-104 | `DecodeColumn` decodes a column iff its tag is supported and its bytes lie within the data (and a string is valid UTF-8); it never returns an error value |
| RecordColumns.UnsupportedTagsPanic | src/record.rs:61-103 | tags 3 and 5 panic (3- and 6-byte slices converted to 4- and 8-byte arrays); tags 10, 11 and negative tags reach `panic!` |
| RecordColumns.IntegerColumns | src/record.rs:49-102 | tags 1, 2, 4, 6 read a big-endian two's-complement integer of width 1, 2, 4, 8; tags 8 and 9 are 0 and 1 with width 0 |
| RecordColumns.SignedBytesOf | src/record.rs:53-92 | the bytes of a two's-complement value read back are the bytes |
| RecordColumns.DecodeEncodedValue | src/record.rs:37-102 | a well-formed value stored at the cursor decodes to itself, with the width of its stored bytes |
| RecordColumns.BodyLaidOut | src/record.rs:106-113 | the decoded columns tile the body: each stored at its offset with the width of its tag |
| RecordColumns.LaidOutBodyDecodes | src/record.rs:37-113 | conversely, columns laid out that way are exactly what the body walk decodes |
| RecordColumns.RecordLayout | src/record.rs:28-117 | for a record decoded by `RecordFrom`, the header tags tile `[first_type_offset, record_head_size)`, and its columns are laid out from `record_head_size` |
| RecordColumns.OneInt32Record | src/record.rs:69-76 | the six-byte record `02 04 00 00 00 2A` is one 32-bit column 42 at offset 2 |
| RecordColumns.HelloRecord | src/record.rs:42-45 | a record whose one column has tag 23 holds the five-byte string "hello" |
| RecordColumns.UnterminatedHeaderDiverges | src/record.rs:33-34 | a header size past the end of the buffer: the tag cursor reaches the end without meeting it, and the loop then runs forever |
| RecordColumns.HeaderTagsOfEncoding | src/record.rs:33-34 | the varints of a list of tags, stored back to back, read back as exactly that list when the header size is where they end |
| RecordColumns.HeaderSize | src/record.rs:29-32 | the header size counts its own varint: it is the length of its own encoding plus the bytes of the tag varints |
| RecordColumns.HeaderSizeWidths | src/record.rs:29-32 | 126 bytes of tags give header size 127 in a one-byte varint; 127 bytes give header size 129 in a two-byte varint |
| RecordColumns.EncodedHeader | src/record.rs:30-34 | the header of an encoded record reads back as its size and its tags, whatever the width of the header-size varint |
| RecordColumns.EncodedBody | src/record.rs:37-113 | the body of an encoded record decodes to its values, placed at consecutive offsets from the header size |
| RecordColumns.RecordRoundTrip | src/record.rs:28-117 | `RecordFrom` on an encoded record gives back every value, in order, at its offset; this holds for a header-size varint of any width from 1 to 8 bytes |
| LegacyRecords.DecodeLegacyRecord | src/page.rs:360-401 | the older loop computes `LegacyRecordFrom`: the shared walk with the older column decoder, keeping only the values |
| LegacyRecords.LegacyColumnTable | src/page.rs:369-393 | `DecodeLegacyColumn`, the older column decoder: tag 3 hits `unreachable!`; tags 0 and 5 to 11 become NULL of width 0; tags 1, 2, 4 are integers of that width; invalid UTF-8 is the `Utf8` error |
| LegacyRecords.DecodersAgree | src/page.rs:369-386 | for integer tags 1, 2, 4 and for strings and blobs, both decoders succeed on the same inputs, with the same width and value; where the newer one panics on UTF-8, the older one returns the error |
| LegacyRecords.LegacyMisreadsInt64 | src/page.rs:379-393 | the older decoder reads a record holding the 64-bit integer 7 and then the 1-byte integer 42 as NULL and 0 |
| LegacyRecords.Int64ThenInt8 | src/record.rs:47-92 | the newer decoder reads the same record as 7 at offset 3 and 42 at offset 11 |
| LegacyRecords.DecimalRoundTrip | src/page.rs:438 | the decimal digits of a number read back as the number |
| LegacyRecords.IntegerTextRoundTrip | src/page.rs:433-442 | the text of an integer is a minus sign iff it is negative, then the digits of its magnitude, which read back as the integer |
| Cells.CellLayout | src/cell.rs:18-30 | `CellFrom`: a cell is the payload-size varint at offset 0, the rowid varint right after it, and the record decoded from there to the end of the slice |
| Cells.CellErrors | src/cell.rs:23-26 | a record failure propagates unchanged; with a decoded record, a negative payload size is the `Offset` error and nothing else fails |
| Cells.CellRoundTrip | src/cell.rs:18-30 | encoding a size, a rowid and a record payload, then decoding, gives back all three |
| Cells.CellWithOneInt32 | src/cell.rs:18-30 | a concrete cell: size 6, rowid 1, one 32-bit column 42 |
| Pages.FileHeaderFields | src/page.rs:190-197 | `FileHeaderFrom`: the header exists iff the file has 100 bytes (otherwise the I/O error); the page size is big-endian bytes 16-17 and the page count is bytes 28-31; the value 1 is not reinterpreted |
| Pages.FileHeaderRoundTrip | src/page.rs:190-197 | any page size and page count written at those offsets read back unchanged |
| Pages.SampleFileHeader | src/page.rs:190-197 | the sample database's header bytes give page size 4096 and page count 4 |
| Pages.PageStarts | src/page.rs:480-487 | `PageStartOffset`: page 1 starts at 100, page n > 1 at (n-1)*s, and from page 2 on consecutive pages are s apart |
| Pages.CellCountReaders | src/page.rs:255-311 | `PageHeaderFrom` (`PageHeader::from`) reads page bytes 0-1 and `GetCellCount` (`get_cell_count`) reads bytes 3-4; on a table leaf page the former is always at least 3328 |
| Pages.ReadRowReader | src/page.rs:275-300 | the two loops of `RowReader::from` compute `RowReaderFrom` |
| Pages.PointerArrayAt | src/page.rs:277-286 | the pointer array of a count-sized buffer has one big-endian `u16` per two bytes, in order |
| Pages.CellsAtEach | src/page.rs:288-294 | cell i of a successful run is the cell read at pointer i |
| Pages.RowReaderShape | src/page.rs:275-300 | in `RowReaderFrom`, the pointer count is `get_cell_count`; pointer i is the `u16` at page start + 8 + 2i; there is exactly one cell per pointer, read from the page start plus that pointer |
| Pages.PageOneCellOffsets | src/page.rs:279-293 | on page 1, cell i is decoded from file offset 100 + pointer i |
| Pages.RowReaderErrors | src/page.rs:276-282 | missing count bytes panic on the unwrap; a pointer array running past the end of the file is the I/O error |
| Pages.Read | src/page.rs:302-304 | row n is the values of cell n; past the last cell it panics |
| Pages.PageReaderFrom | src/page.rs:218-224 | a page reader exists iff both the page header and the row reader do, and holds both; a failure is never an error value, because both are unwrapped |
| Pages.GetTableNames | src/page.rs:92-99 | the loop computes `TableNames` |
| Pages.TableNamesExist | src/page.rs:92-99 | `TableNames` exist iff every page-1 row has a column 1 |
| Pages.TableNamesValues | src/page.rs:92-99 | when they exist, name i is the text of page-1 row i's column 1, in pointer order |
| Pages.GetTableLocation | src/page.rs:126-148 | the loop, which returns from inside, computes `TableLocation` |
| Pages.LocationIsFirstHit | src/page.rs:126-148 | `TableLocation`: the location is column 3 of the first row that names the table and has an integer there, taken `as usize`; with no such row it is 0 |
| Pages.CountRows | src/page.rs:101-105 | the row count is the number of cells on the table's root page; a table that is not found underflows `root_num - 1` |
| RawPages.RawPageSpan | src/page_scanner.rs:38-55 | `LoadRawPage`: page 0 underflows; page 1 with a page size below 100 underflows; otherwise the raw page is the file from the page's content start to n*s; it exists iff the file reaches n*s, and otherwise panics on the unwrap |
| RawPages.SamplePages | src/database.rs:71-91 | in a four-page file of 4096-byte pages, raw page 1 is bytes 100..4096 and raw page 2 is bytes 4096..8192 |
| RawPages.LeafPointers | src/page.rs:276-286 | the pointer array exists iff the page holds the count at offset 3 and the whole array from offset 8; otherwise it panics out of range |
| RawPages.TableLeafPageFrom | src/page_scanner.rs:31-33 | a decoded leaf page holds the cell at each pointer of the page's pointer array, in order |
| RawPages.LeafPointersAt | src/page.rs:277-286 | one pointer per counted cell; pointer i is the `u16` at page offset 8 + 2i |
| RawPages.LeafCellsEach | src/page.rs:288-294 | cell i of a successful run is the cell at pointer i |
| RawPages.LeafCellAtOk | src/page.rs:290-293 | a pointer that yields a cell lies within the page, and the cell is decoded from there to the page's end |
| RawPages.LeafPageShape | src/page_scanner.rs:31-33 | the cell count is the `u16` at page offset 3, and cell i decodes from where the i-th pointer designates, counted from the b-tree page start |
| RawPages.LeafPageErrors | src/page_scanner.rs:31-33 | a page too short for its count or its pointer array panics; no error value comes out of the decoding |
| RawPages.LoadLeafParts | src/page_scanner.rs:31-32 | `LoadLeaf`: a loaded leaf page is the decoding of the file's bytes from the page's content start to its end |
| RawPages.LeafCellsAtFileOffsets | src/page.rs:279-293 | page n's cell count is at its content start + 3, and cell i is decoded from file offset (n-1)*s + pointer i, page 1 included |
| PageScanners.RecordsOfStep | src/page_scanner.rs:69-72 | handing out one more record extends the records handed out by exactly that record |
| PageScanners.PositionedPage.constructor | src/page_scanner.rs:21-25 | a new cursor holds no page and is at position 0 |
| PageScanners.PositionedPage.NextRecord | src/page_scanner.rs:66-79 | on a leaf page with cells left, it returns the record at the position and moves on by exactly one; otherwise, or on a page that is not a table leaf, it returns None and nothing moves; the page never changes, and position <= number of cells is kept |
| PageScanners.PageScanner.From | src/page_scanner.rs:16-27 | a new scanner holds the file, the start page and the page size; no page is loaded and the position is 0 |
| PageScanners.PageScanner.GetNextRecord | src/page_scanner.rs:29-36 | the start page is loaded only while none is held, and the held page is always that page's decoding; successive records are those of cells 0, 1, 2, ...; once they run out every call gives None; a load failure is propagated and nothing changes |
| Databases.Database.From | src/database.rs:21-31 | opening succeeds iff the file has a 100-byte header (otherwise the unwrap panics); the header is the file's and the page cache is empty |
| Databases.Database.PageSize | src/database.rs:33-35 | the page size is the big-endian `u16` at file bytes 16-17 |
| Databases.Database.PageCount | src/database.rs:37-39 | the page count is the big-endian `u32` at file bytes 28-31 |
| Databases.Database.GetTableNames | src/database.rs:58-69 | page 1 is loaded and decoded; the cache gains it under key 1 only if that key is absent, and no other entry changes; the names are those of its cells; a load failure is propagated and the cache is unchanged |
| Databases.Database.CollectNames | src/database.rs:65-68 | the loop computes `NamesOf` |
| Databases.NamesOfFails | src/database.rs:65-66 | a cell with fewer than two columns makes the whole run panic out of range |
| Databases.NamesOfContent | src/database.rs:65-68 | `NamesOf`: the names exist iff every cell has a column 1; then there is one per cell, in cell order, each the empty text `Column::value` gives |

## Left out

- `src/main.rs`: command-line parsing, printing and the TCP/HTTP listener, which are I/O and process plumbing.
- `src/parser.rs`, `src/table.rs` and `TableSchema::from`: the SQL parser is built on a combinator library that is not part of this model.
- `src/executor.rs`: it only prints that nothing is implemented.
- `Database::from` in `src/page.rs` (lines 44-65) and `Database::get_column`: both depend on `TableSchema::from`. The schema lookups take the page readers as given (`Pages.LegacyDatabase`).
- Files are byte sequences. `File::open`, its failure, and the state of the file cursor are not modelled. A `seek` followed by `read_exact` is a slice or the I/O error (`Bytes.ReadExact`).
- `Bytes.ReadPadded`: a `read_exact` whose error is ignored is modelled as the file's bytes followed by zeros. A partially filled buffer is assumed to get every byte that exists.
- Tag 7 (`f64`) is kept as its eight stored bytes. Floating-point decoding and the `Display` of floats are not modelled.
- `Display` of the older values is modelled as UTF-8 bytes (`LegacyRecords.ToText`); a string is its bytes. The newer `Display` in `src/serial_type.rs` is commented out.
- `println!` diagnostics, and the `thiserror`/backtrace plumbing of the error type, are left out. Only the error kind is kept.
- `usize` is taken as 64 bits (`Bytes.AsUsize`).
- Overflow of `u64` additions and multiplications in page offsets is not modelled. Only the underflows of `page_num - 1`, `page_size - 100` and `root_num - 1` are.
- `RawPages.TableLeafPageFrom`: `TableLeafPage` and `Page` are imported from `src/page.rs` but not defined there. The model gives the leaf page the count at page offset 3, the pointer array at offset 8, and one cell per pointer decoded with the newer cell and record and unwrapped. The cell is read from the pointer, counted from the b-tree page start, up to the end of the raw page. This reading rests on the `is_first_page` argument (src/page_scanner.rs:32): on page 1 a pointer p designates file offset p, where `RowReader::from` reads at 100 + p. It also differs from `RowReader::from` in decoding the newer record and in stopping at the raw page's end rather than at the end of a buffer padded to 40960 bytes.
- `RecordColumns.RecordRoundTrip`: covers records of the values the newer decoder supports (no 24- or 48-bit integer, which it cannot decode), each tag below 2^56 so that the 8-byte varint encoder can write it, and whose tag varints take fewer than 2^56 - 8 bytes, the range of the 8-byte varint encoder, each encoded with its shortest header-size varint.
- `Databases.Database.GetTableNames`: the call `TableLeafPage::from(&data, 0, page_size)` has a different arity from the scanner's call. It is read as the page-1 case.
- The record loop that never ends is the `Diverge` outcome. Each pass of that loop pushes a NULL column, so the `columns` vector grows until allocation fails and the process aborts; `Diverge` stands for that abort as well as for the endless loop. Memory is not modelled.
- The page header is always taken as 8 bytes (src/page.rs:281), so the pointer array of an interior page is read 4 bytes early. The model keeps the 8 bytes.
- `Pages.TableCount` (src/page.rs:226-228) returns the page header's cell count as it is stored. The count itself is stated in `Pages.CellCountReaders`.

## Findings

| source | as written | input that shows it | evidently intended | confidence | as-written member | corrected member |
|---|---|---|---|---|---|---|
| src/page.rs:279-293 | a cell is read at the page start plus its pointer; on page 1 the start already includes the 100-byte file header | page 1 of any database with a schema row: a pointer p that designates file offset p is read from offset 100 + p | cell pointers count from the start of the b-tree page, which for page 1 is the start of the file: page n's cell i sits at (n-1)*page_size + pointer i | high; not executed | Pages.PageOneCellOffsets | RawPages.LeafCellsAtFileOffsets (the leaf page the newer code builds) |
| src/page.rs:255-263 | `PageHeader::from` takes the cell count from page bytes 0-1, which hold the page-type flag and the first byte of the freeblock offset | any table leaf page: byte 0 is 13, so the count read is at least 3328 whatever the page holds | the count is the big-endian `u16` at page offset 3, as `get_cell_count` (src/page.rs:306-311) reads it, with one pointer and one cell per counted cell | high; not executed | Pages.CellCountReaders | Pages.RowReaderShape |
| src/page.rs:379-393 | the older record decoder sends tags 5 to 7 to the NULL branch with width 0, so a 64-bit integer (tag 6) is skipped and every later column is read from the wrong offset | the record `03 06 01 00 00 00 00 00 00 00 07 2A` (the integer 7, then the one-byte integer 42) reads as NULL, 0 | each tag consumes its width from the serial-type table, as the newer decoder in src/record.rs does, which reads 7 and 42 and round-trips every record of the values it supports whose tag varints take fewer than 2^56 - 8 bytes | high; not executed | LegacyRecords.LegacyMisreadsInt64 | LegacyRecords.Int64ThenInt8 |
