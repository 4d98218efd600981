/**
  The append-only page store (GTWAOF.h) and the update context through which
  a transaction appends to it (GTWAOFUpdateContext.h).

  The store is a growing sequence of fixed-size pages. Pages are only ever
  read or appended; the single way to append is UpdateWithBlock, which
  publishes the pages a transaction created in its update context, all of
  them or, when the transaction body answers NO, none of them.

  The two classes live in one module because each refers to the other.
*/
module AOF {
  import opened Bytes
  import opened Pages

  /** AOF_PAGE_SIZE: the size in bytes of every page of the store. */
  const AOF_PAGE_SIZE: nat := 8192

  /** The buffers of a sequence of pages, in order. */
  ghost function PageData(ps: seq<Page>): (r: seq<seq<byte>>)
    reads ps
    ensures |r| == |ps|
    ensures forall i | 0 <= i < |ps| :: r[i] == ps[i].data
  {
    if ps == [] then [] else PageData(ps[..|ps| - 1]) + [ps[|ps| - 1].data]
  }

  /**
    A store: its pages (the in-memory backend keeps exactly this sequence;
    the file backends keep it on disk) and the object cache that sits in
    front of it.
  */
  class AppendOnlyFile {
    var pages: seq<seq<byte>>
    var objectCache: map<int, object>

    ghost predicate Valid()
      reads this
    {
      forall i | 0 <= i < |pages| :: |pages[i]| == AOF_PAGE_SIZE
    }

    /** A new, empty store. */
    constructor ()
      ensures Valid() && pages == [] && objectCache == map[]
    {
      pages := [];
      objectCache := map[];
    }

    /** pageCount: the number of pages; their ids run from 0 below it. */
    function PageCount(): nat
      reads this
    {
      |pages|
    }

    /** pageSize: the page size of the build, never changing. */
    function PageSize(): (n: nat)
      ensures n == 8192
    {
      AOF_PAGE_SIZE
    }

    /**
      readPage: a committed page object for an id below the page count,
      nil (null) for any other id.
    */
    method ReadPage(pageID: int) returns (p: Page?)
      ensures p != null <==> 0 <= pageID < PageCount()
      ensures p != null ==> fresh(p) && p.pageID == pageID && p.data == pages[pageID] && p.committed
    {
      if 0 <= pageID < |pages| {
        p := new Page(pageID, pages[pageID], true);
      } else {
        p := null;
      }
    }

    /**
      cachedObjectForPage: the cache may have evicted the entry at any time,
      so the answer is either nothing or the object last stored for the id.
    */
    method CachedObjectForPage(pageID: int) returns (o: object?)
      ensures o == null || (pageID in objectCache && o == objectCache[pageID])
    {
      var evicted: bool :| true;
      if pageID in objectCache && !evicted {
        o := objectCache[pageID];
      } else {
        o := null;
      }
    }

    /** setObject:forPage: memoizes a decoded object; the pages are untouched. */
    method SetObjectForPage(obj: object, pageID: int)
      modifies this
      ensures objectCache == old(objectCache)[pageID := obj]
      ensures pages == old(pages)
    {
      objectCache := objectCache[pageID := obj];
    }

    /**
      updateWithBlock: the caller has run the transaction body on ctx, which
      answered bodyResult. On YES every page the body created is appended in
      creation order, under the id it was given at creation, and committed;
      the store then holds exactly what the context showed. On NO nothing is
      appended and no page changes.
    */
    method UpdateWithBlock(ctx: UpdateContext, bodyResult: bool) returns (ok: bool)
      requires Valid() && ctx.Valid() && ctx.aof == this
      modifies this, ctx.createdPages
      ensures Valid()
      ensures ok == bodyResult
      ensures objectCache == old(objectCache)
      ensures |pages| >= old(|pages|)
      ensures ok ==> pages == old(ctx.View()) && PageCount() == old(PageCount() + |ctx.createdPages|)
      ensures ok ==> forall i | 0 <= i < |ctx.createdPages| ::
                       ctx.createdPages[i].committed && ctx.createdPages[i].pageID == old(|pages|) + i
      ensures !ok ==> pages == old(pages)
      ensures !ok ==> forall p | p in ctx.createdPages :: unchanged(p)
    {
      ok := bodyResult;
      if !ok {
        return;
      }
      AppendAndCommit(ctx.createdPages);
    }

    /** The commit step: append the buffers in order and commit each page under its new id. */
    method AppendAndCommit(created: seq<Page>)
      requires forall a, b | 0 <= a < b < |created| :: created[a] != created[b]
      modifies this, created
      ensures pages == old(pages) + old(PageData(created))
      ensures objectCache == old(objectCache)
      ensures forall j | 0 <= j < |created| :: created[j].committed && created[j].pageID == old(|pages|) + j
    {
      var base := pages;
      ghost var datas := PageData(created);
      var i := 0;
      while i < |created|
        invariant 0 <= i <= |created|
        invariant forall j | 0 <= j < |created| :: created[j].data == datas[j]
        invariant pages == base + datas[..i]
        invariant forall j | 0 <= j < i :: created[j].committed && created[j].pageID == |base| + j
        invariant objectCache == old(objectCache)
      {
        var p := created[i];
        assert datas[..i + 1] == datas[..i] + [p.data];
        pages := pages + [p.data];
        p.CommitWithPageID(|base| + i);
        i := i + 1;
      }
      assert datas[..i] == datas;
    }
  }

  /**
    One write transaction. Ids are handed out from nextPageID, which starts at
    the store's page count, so the pages created here get the ids
    pageCount, pageCount + 1, ... in creation order and never collide with a
    page of the store. Only one context is open at a time, so the store does
    not grow while it is.
  */
  class UpdateContext {
    const aof: AppendOnlyFile
    var nextPageID: int
    var createdPages: seq<Page>

    ghost predicate Valid()
      reads this, aof, createdPages
    {
      && aof.Valid()
      && nextPageID == |aof.pages| + |createdPages|
      && (forall i | 0 <= i < |createdPages| ::
            && createdPages[i].pageID == |aof.pages| + i
            && !createdPages[i].committed
            && |createdPages[i].data| == AOF_PAGE_SIZE)
      && (forall i, j | 0 <= i < j < |createdPages| :: createdPages[i] != createdPages[j])
    }

    /**
      What a reader in this transaction sees: the store's pages followed by
      the buffers of the pages created here, each at its id.
    */
    ghost function View(): (v: seq<seq<byte>>)
      reads this, aof, createdPages
      ensures Valid() ==> |v| == nextPageID
      ensures Valid() ==> forall i | 0 <= i < |v| :: |v[i]| == AOF_PAGE_SIZE
    {
      aof.pages + PageData(createdPages)
    }

    /** initWithAOF: */
    constructor (aof: AppendOnlyFile)
      requires aof.Valid()
      ensures this.aof == aof && Valid()
      ensures nextPageID == |aof.pages| && createdPages == []
      ensures View() == aof.pages
    {
      this.aof := aof;
      nextPageID := |aof.pages|;
      createdPages := [];
    }

    /** pageSize: that of the store. */
    function PageSize(): (n: nat)
      ensures n == aof.PageSize()
    {
      aof.PageSize()
    }

    /**
      readPage: the buffered page object for an id created in this context,
      the store's page for any other id (nil beyond both).
    */
    method ReadPage(pageID: int) returns (p: Page?)
      requires Valid()
      ensures p != null <==> 0 <= pageID < nextPageID
      ensures |aof.pages| <= pageID < nextPageID ==> p == createdPages[pageID - |aof.pages|]
      ensures 0 <= pageID < |aof.pages| ==> p != null && fresh(p) && p.committed
      ensures p != null ==> p.pageID == pageID && p.data == View()[pageID]
    {
      if |aof.pages| <= pageID < nextPageID {
        p := createdPages[pageID - |aof.pages|];
      } else {
        p := aof.ReadPage(pageID);
      }
    }

    /**
      createPageWithData: a new uncommitted page under the next id, buffered
      here; the store itself is not touched.
    */
    method CreatePageWithData(data: seq<byte>) returns (p: Page)
      requires Valid() && |data| == AOF_PAGE_SIZE
      modifies this
      ensures Valid()
      ensures fresh(p) && !p.committed && p.pageID == old(nextPageID) && p.data == data
      ensures createdPages == old(createdPages) + [p]
      ensures nextPageID == old(nextPageID) + 1
      ensures View() == old(View()) + [data]
      ensures unchanged(aof)
    {
      p := new Page(nextPageID, data, false);
      createdPages := createdPages + [p];
      nextPageID := nextPageID + 1;
      assert createdPages[..|createdPages| - 1] == old(createdPages);
    }
  }
}
