/** src/database.rs: the database the newer code opens.  It keeps the file
    header, the file, and a cache of decoded pages keyed by page number,
    which `get_table_names` fills with page 1. */
module Databases {
  import opened Outcomes
  import opened Bytes
  import opened Records
  import opened Cells
  import opened Pages
  import opened RawPages

  /** Column 1 of every cell has a value: each cell has two columns or more. */
  predicate NamesPresent(cells: seq<Cell<Record>>) {
    forall i :: 0 <= i < |cells| ==> |cells[i].record.columns| >= 2
  }

  /** `struct Database`. */
  class Database {
    const fileHeader: FileHeader
    const file: seq<Byte>
    var pages: map<nat, Page>

    /** The header is the file's, and every cached page is the table leaf
        decoded from the file under its page number. */
    ghost predicate Valid()
      reads this
    {
      && FileHeaderFrom(file) == Ok(fileHeader)
      && forall k :: k in pages ==>
           && LoadLeaf(file, k, fileHeader.pageSize).Ok?
           && pages[k] == TableLeaf(LoadLeaf(file, k, fileHeader.pageSize).value)
    }

    constructor Init(file: seq<Byte>, fileHeader: FileHeader)
      requires FileHeaderFrom(file) == Ok(fileHeader)
      ensures this.file == file && this.fileHeader == fileHeader && pages == map[]
      ensures Valid()
    {
      this.file := file;
      this.fileHeader := fileHeader;
      pages := map[];
    }

    /** `Database::from` on the opened file: the header is unwrapped (a file
        shorter than 100 bytes panics) and the cache starts empty. */
    static method From(file: seq<Byte>) returns (r: Outcome<Database>)
      ensures r.Ok? <==> |file| >= FILE_HEADER_SIZE
      ensures !r.Ok? ==> r == Panic(Unwrap)
      ensures r.Ok? ==> fresh(r.value) && r.value.Valid() && r.value.file == file && r.value.pages == map[]
    {
      FileHeaderFields(file);
      var header := FileHeaderFrom(file);
      if !header.Ok? {
        return Panic(Unwrap);
      }
      var db := new Database.Init(file, header.value);
      r := Ok(db);
    }

    /** `get_page_size`: the `u16` at bytes 16-17 of the file. */
    function PageSize(): (s: nat)
      reads this
      requires Valid()
      ensures s == BigEndian(file[16..18]) && s < 0x1_0000
    {
      FileHeaderFields(file);
      fileHeader.pageSize
    }

    /** `get_page_count`: the `u32` at bytes 28-31 of the file. */
    function PageCount(): (c: nat)
      reads this
      requires Valid()
      ensures c == BigEndian(file[28..32]) && c < 0x1_0000_0000
    {
      FileHeaderFields(file);
      fileHeader.pageCount
    }

    /** `get_table_names`: page 1 is loaded and decoded afresh; the cache
        gains it under key 1 only if that key is absent, and no other entry
        changes; then the names are collected from its cells. */
    method GetTableNames() returns (r: Outcome<seq<string>>)
      requires Valid()
      modifies this
      ensures Valid()
      ensures var leaf := LoadLeaf(file, 1, fileHeader.pageSize);
        && (!leaf.Ok? ==> r == leaf.PropagateFailure() && pages == old(pages))
        && (leaf.Ok? ==>
              && pages == (if 1 in old(pages) then old(pages) else old(pages)[1 := TableLeaf(leaf.value)])
              && pages == old(pages)[1 := TableLeaf(leaf.value)]
              && r == NamesOf(leaf.value.cells))
    {
      var leaf := LoadLeaf(file, 1, fileHeader.pageSize);
      if !leaf.Ok? {
        return leaf.PropagateFailure();
      }
      if 1 !in pages {
        pages := pages[1 := TableLeaf(leaf.value)];
      }
      r := CollectNames(leaf.value.cells);
    }

    /** The loop of `get_table_names`. */
    static method CollectNames(cells: seq<Cell<Record>>) returns (r: Outcome<seq<string>>)
      ensures r == NamesOf(cells)
    {
      var result: seq<string> := [];
      for i := 0 to |cells|
        invariant NamesOf(cells[..i]) == Ok(result)
      {
        NamesOfStep(cells, i);
        if |cells[i].record.columns| < 2 {
          NamesOfFails(cells, i);
          return Panic(OutOfRange);
        }
        result := result + [ColumnValue(cells[i].record.columns[1])];
      }
      assert cells[..|cells|] == cells;
      r := Ok(result);
    }
  }

  /** The names `get_table_names` collects from a run of cells: the value of
      column 1 of each, in order; the first cell with fewer than two columns
      panics. */
  function NamesOf(cells: seq<Cell<Record>>): (r: Outcome<seq<string>>)
    ensures r.Ok? ==> |r.value| == |cells|
  {
    if cells == [] then Ok([])
    else
      var init := NamesOf(cells[..|cells| - 1]);
      var last := cells[|cells| - 1];
      if !init.Ok? then init
      else if |last.record.columns| < 2 then Panic(OutOfRange)
      else Ok(init.value + [ColumnValue(last.record.columns[1])])
  }

  /** The loop's step: one more cell appends its name or panics. */
  lemma NamesOfStep(cells: seq<Cell<Record>>, i: nat)
    requires i < |cells|
    ensures var init := NamesOf(cells[..i]);
      NamesOf(cells[..i + 1]) ==
        if !init.Ok? then init
        else if |cells[i].record.columns| < 2 then Panic(OutOfRange)
        else Ok(init.value + [ColumnValue(cells[i].record.columns[1])])
  {
    assert cells[..i + 1][..i] == cells[..i];
  }

  /** A panic on cell i is the panic of the whole run. */
  lemma NamesOfFails(cells: seq<Cell<Record>>, i: nat)
    requires i < |cells| && NamesOf(cells[..i]).Ok? && |cells[i].record.columns| < 2
    ensures NamesOf(cells) == Panic(OutOfRange)
  {
    NamesOfStep(cells, i);
    NamesOfPanicStays(cells, i + 1);
  }

  lemma {:induction false} NamesOfPanicStays(cells: seq<Cell<Record>>, n: nat)
    requires n <= |cells| && NamesOf(cells[..n]) == Panic(OutOfRange)
    ensures NamesOf(cells) == Panic(OutOfRange)
    decreases |cells| - n
  {
    if n < |cells| {
      NamesOfStep(cells, n);
      NamesOfPanicStays(cells, n + 1);
    } else {
      assert cells[..n] == cells;
    }
  }

  /** The names exist exactly when every cell has a column 1; then there is
      one per cell, and each is empty, since `Column::value` is. */
  lemma {:induction false} NamesOfContent(cells: seq<Cell<Record>>)
    ensures NamesOf(cells).Ok? <==> NamesPresent(cells)
    ensures !NamesOf(cells).Ok? ==> NamesOf(cells) == Panic(OutOfRange)
    ensures NamesOf(cells).Ok? ==>
              |NamesOf(cells).value| == |cells| && forall i :: 0 <= i < |cells| ==> NamesOf(cells).value[i] == ""
    decreases |cells|
  {
    if cells != [] {
      var init := cells[..|cells| - 1];
      NamesOfContent(init);
    }
  }
}
