/**
  A page of the store (GTWAOFPage.h): an id, a byte buffer and a flag that
  says whether the page has been written to the store. A page created in an
  update context is uncommitted and its buffer may still be replaced; the
  commit step fixes its id and marks it committed, after which it is never
  changed again.
*/
module Pages {
  import opened Bytes

  class Page {
    var pageID: int
    var data: seq<byte>
    var committed: bool

    /** initWithPageID:data:committed: */
    constructor (pageID: int, data: seq<byte>, committed: bool)
      ensures this.pageID == pageID && this.data == data && this.committed == committed
    {
      this.pageID := pageID;
      this.data := data;
      this.committed := committed;
    }

    /** setData: replaces the buffer of a page that is not yet committed. */
    method SetData(data: seq<byte>)
      requires !committed
      modifies this
      ensures this.data == data
      ensures pageID == old(pageID) && committed == old(committed)
    {
      this.data := data;
    }

    /** commitWithPageID: fixes the id and marks the page committed. */
    method CommitWithPageID(pageID: int)
      modifies this
      ensures committed && this.pageID == pageID
      ensures data == old(data)
    {
      this.pageID := pageID;
      committed := true;
    }
  }
}
