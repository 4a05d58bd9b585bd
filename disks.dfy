/**
 * The database files as the buffer pool and the log see them: readPage and
 * writePage of the DbFile that Catalog.getDatabaseFile returns for a page's
 * table, reduced to a store of page images keyed by page id.
 */
module Disks {
  import opened Bits
  import opened Ids
  import opened ByteCodec

  /** The serialised bytes of one page. */
  type Image = seq<byte>

  /**
   * What readPage yields for pid: the image last written there, or an
   * all-zero page for a page never written (HeapFile reads past the end of
   * its file into a zeroed buffer).
   */
  function ReadImage(pages: map<PageId, Image>, pageSize: nat, pid: PageId): (r: Image)
    ensures pid !in pages ==> |r| == pageSize
  {
    if pid in pages then pages[pid] else Zeros(pageSize)
  }

  class Disk {
    const pageSize: nat
    var pages: map<PageId, Image>

    constructor (pageSize: nat)
      ensures this.pageSize == pageSize && pages == map[]
    {
      this.pageSize := pageSize;
      pages := map[];
    }

    /** DbFile.readPage. */
    method ReadPage(pid: PageId) returns (r: Image)
      ensures r == ReadImage(pages, pageSize, pid)
    {
      r := if pid in pages then pages[pid] else Zeros(pageSize);
    }

    /** DbFile.writePage: the page reads back as the image written. */
    method WritePage(pid: PageId, image: Image)
      modifies this
      ensures pages == old(pages)[pid := image]
      ensures ReadImage(pages, pageSize, pid) == image
    {
      pages := pages[pid := image];
    }
  }
}
