/** src/page_scanner.rs: a forward-only cursor over the records of one table
    leaf page.  The scanner loads and decodes its start page on the first
    request and then hands out the records of its cells one at a time. */
module PageScanners {
  import opened Outcomes
  import opened Bytes
  import opened Records
  import opened Cells
  import opened RawPages

  /** The records of a run of cells, in order. */
  function RecordsOf(cells: seq<Cell<Record>>): (rs: seq<Record>)
    ensures |rs| == |cells|
    ensures forall i :: 0 <= i < |cells| ==> rs[i] == cells[i].record
  {
    seq(|cells|, i requires 0 <= i < |cells| => cells[i].record)
  }

  /** Handing out one more record extends the records handed out so far by
      exactly that record. */
  lemma RecordsOfStep(cells: seq<Cell<Record>>, n: nat)
    requires n < |cells|
    ensures RecordsOf(cells[..n + 1]) == RecordsOf(cells[..n]) + [cells[n].record]
  {
    assert cells[..n + 1] == cells[..n] + [cells[n]];
  }

  /** `struct PositionedPage`: a page, once loaded, and the index of the
      next cell to hand out. */
  class PositionedPage {
    const pageNum: nat
    var page: Option<Page>
    var position: nat
    /** The records handed out so far. */
    ghost var yielded: seq<Record>

    /** The position never passes the last cell, and what was handed out is
        exactly the records of the cells before it; without a leaf page
        nothing was handed out. */
    ghost predicate Valid()
      reads this
    {
      if page.Some? && page.value.TableLeaf? then
        position <= |page.value.leaf.cells| && yielded == RecordsOf(page.value.leaf.cells[..position])
      else position == 0 && yielded == []
    }

    /** The position a new scanner starts from: no page, position 0. */
    constructor (pageNum: nat)
      ensures this.pageNum == pageNum && page == None && position == 0
      ensures yielded == [] && Valid()
    {
      this.pageNum := pageNum;
      page := None;
      position := 0;
      yielded := [];
    }

    /** `next_record`: on a leaf page with cells left, the record of the
        cell at the position, the position moving on by one; otherwise None,
        nothing moving.  The page itself never changes. */
    method NextRecord() returns (r: Option<Record>)
      requires Valid()
      modifies this
      ensures Valid()
      ensures page == old(page)
      ensures old(page).Some? && old(page).value.TableLeaf? && old(position) < |old(page).value.leaf.cells| ==>
                && r == Some(old(page).value.leaf.cells[old(position)].record)
                && position == old(position) + 1
                && yielded == old(yielded) + [r.value]
      ensures !(old(page).Some? && old(page).value.TableLeaf? && old(position) < |old(page).value.leaf.cells|) ==>
                r == None && position == old(position) && yielded == old(yielded)
    {
      match page
      case Some(TableLeaf(leaf)) =>
        if position < |leaf.cells| {
          var record := leaf.cells[position].record;
          RecordsOfStep(leaf.cells, position);
          position := position + 1;
          yielded := yielded + [record];
          return Some(record);
        }
        return None;
      case _ =>
        return None;
    }
  }

  /** `struct PageScanner`: the file, the page to scan and its size, and the
      cursor. */
  class PageScanner {
    const file: seq<Byte>
    const startPageNum: nat
    const pageSize: nat
    const currentPosition: PositionedPage

    /** The cursor is valid and on the start page, and a loaded page is the
        decoding of the start page's bytes. */
    ghost predicate Valid()
      reads this, currentPosition
    {
      && currentPosition.Valid()
      && currentPosition.pageNum == startPageNum
      && (currentPosition.page.Some? ==>
            && LoadLeaf(file, startPageNum, pageSize).Ok?
            && currentPosition.page.value == TableLeaf(LoadLeaf(file, startPageNum, pageSize).value))
    }

    /** `PageScanner::from`: nothing is read yet. */
    constructor From(file: seq<Byte>, pageNum: nat, pageSize: nat)
      ensures this.file == file && startPageNum == pageNum && this.pageSize == pageSize
      ensures fresh(currentPosition)
      ensures currentPosition.page == None && currentPosition.position == 0
      ensures currentPosition.yielded == []
      ensures Valid()
    {
      this.file := file;
      startPageNum := pageNum;
      this.pageSize := pageSize;
      currentPosition := new PositionedPage(pageNum);
    }

    /** `get_next_record`: loads and decodes the start page if no page is
        held yet (a load or decode failure is a panic), then hands out the
        next record.  Successive records are those of cells 0, 1, 2, ... of
        the start page, and once they run out every call gives None. */
    method GetNextRecord() returns (r: Outcome<Option<Record>>)
      requires Valid()
      modifies currentPosition
      ensures Valid()
      ensures r.Ok? <==> LoadLeaf(file, startPageNum, pageSize).Ok?
      ensures !r.Ok? ==>
                && r == LoadLeaf(file, startPageNum, pageSize).PropagateFailure()
                && currentPosition.page == old(currentPosition.page) == None
                && currentPosition.position == old(currentPosition.position)
      ensures r.Ok? ==>
                var cells := LoadLeaf(file, startPageNum, pageSize).value.cells;
                var at := old(currentPosition.position);
                && currentPosition.page == Some(TableLeaf(TableLeafPage(cells)))
                && (at < |cells| ==>
                      && r.value == Some(cells[at].record)
                      && currentPosition.position == at + 1
                      && currentPosition.yielded == RecordsOf(cells[..at + 1]))
                && (at >= |cells| ==>
                      && r.value == None
                      && currentPosition.position == at
                      && currentPosition.yielded == RecordsOf(cells[..at]))
    {
      if currentPosition.page.None? {
        var leaf := LoadLeaf(file, startPageNum, pageSize);
        if !leaf.Ok? {
          return leaf.PropagateFailure();
        }
        currentPosition.page := Some(TableLeaf(leaf.value));
      }
      var record := currentPosition.NextRecord();
      r := Ok(record);
    }
  }
}
