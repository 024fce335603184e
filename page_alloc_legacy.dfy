/**
 * The older copy of the page allocator, kept beside the `alloc` module. Its
 * `alloc`, `alloc_pages` and `free_pages` follow the same bump/page logic as
 * `PageAlloc.PageAllocator`, with an `AllocError` of its own and no
 * `owns_pointer`. The value-level layout (blocks, ceiling, tail offset) is
 * shared with `PageAlloc`; this class tracks the chain, the current page and
 * the page counter.
 */
module PageAllocLegacy {
  import opened Wrappers
  import PageLayout

  /** The copy's own error type. */
  datatype AllocError = AllocError

  class PageAllocator {
    const pageSize: nat
    /** The chain of mapped blocks, oldest first; `last` is the final block. */
    var blocks: seq<PageLayout.Block>
    var currentPage: Option<PageLayout.Page>
    var totalAllocatedPages: nat

    ghost predicate Valid()
      reads this
    {
      && pageSize > PageLayout.HEADER_SIZE
      && totalAllocatedPages == PageLayout.TotalPages(blocks)
      && PageLayout.BlocksOk(blocks, pageSize)
      && (currentPage.Some? ==> currentPage.value.offset < pageSize)
    }

    constructor (pageSize: nat)
      requires pageSize > PageLayout.HEADER_SIZE
      ensures Valid() && this.pageSize == pageSize
      ensures blocks == [] && currentPage == None && totalAllocatedPages == 0
    {
      this.pageSize := pageSize;
      blocks := [];
      currentPage := None;
      totalAllocatedPages := 0;
    }

    /** `alloc_pages`: a map failure is reported before any field is touched. */
    method AllocPages(numPages: nat, mmap: Option<nat>) returns (r: Result<nat, AllocError>)
      requires Valid() && numPages >= 1
      requires mmap.Some? ==>
                 mmap.value > 0 && PageLayout.FreshRange(PageLayout.Range(mmap.value, PageLayout.PagesBytes(numPages, pageSize)), blocks, pageSize)
      modifies this
      ensures Valid()
      ensures mmap.None? ==> r == Err(AllocError) && unchanged(this)
      ensures mmap.Some? ==>
                && r == Ok(mmap.value)
                && blocks == old(blocks) + [PageLayout.Block(mmap.value, numPages)]
                && totalAllocatedPages == old(totalAllocatedPages) + numPages
                && currentPage == old(currentPage)
    {
      if mmap.None? {
        return Err(AllocError);
      }
      var b := PageLayout.Block(mmap.value, numPages);
      PageLayout.TotalPagesAppend(blocks, b);
      PageLayout.AddBlockKeeps(blocks, b, [], [], None, 0, pageSize);
      blocks := blocks + [b];
      totalAllocatedPages := totalAllocatedPages + numPages;
      r := Ok(mmap.value);
    }

    /** `alloc`: the fast path bumps inside the current page, the slow path maps a fresh block. */
    method Alloc(size: nat, mmap: Option<nat>) returns (r: Result<nat, AllocError>)
      requires Valid()
      requires size + PageLayout.HEADER_SIZE + pageSize - 1 <= USIZE_MAX
      requires mmap.Some? ==>
                 mmap.value > 0 &&
                 PageLayout.FreshRange(PageLayout.Range(mmap.value, PageLayout.PagesBytes(PageLayout.NumPages(size, pageSize), pageSize)), blocks, pageSize)
      modifies this
      ensures Valid()
      ensures old(currentPage).Some? && pageSize - old(currentPage).value.offset >= size ==>
                && r == Ok(old(currentPage).value.start + old(currentPage).value.offset)
                && blocks == old(blocks) && totalAllocatedPages == old(totalAllocatedPages)
                && currentPage == (if old(currentPage).value.offset + size == pageSize then None
                                   else Some(PageLayout.Page(old(currentPage).value.start, old(currentPage).value.offset + size)))
      ensures !(old(currentPage).Some? && pageSize - old(currentPage).value.offset >= size) && mmap.None? ==>
                r == Err(AllocError) && unchanged(this)
      ensures !(old(currentPage).Some? && pageSize - old(currentPage).value.offset >= size) && mmap.Some? ==>
                && r == Ok(mmap.value + PageLayout.HEADER_SIZE)
                && blocks == old(blocks) + [PageLayout.Block(mmap.value, PageLayout.NumPages(size, pageSize))]
                && totalAllocatedPages == old(totalAllocatedPages) + PageLayout.NumPages(size, pageSize)
                && currentPage == (if PageLayout.TailOffset(size, pageSize) != 0
                                   then Some(PageLayout.Page(
                                          PageLayout.LastPageStart(PageLayout.Block(mmap.value, PageLayout.NumPages(size, pageSize)), pageSize),
                                          PageLayout.TailOffset(size, pageSize)))
                                   else old(currentPage))
    {
      if currentPage.Some? && pageSize - currentPage.value.offset >= size {
        var cur := currentPage.value;
        var ret := cur.start + cur.offset;
        currentPage := if cur.offset + size == pageSize then None else Some(PageLayout.Page(cur.start, cur.offset + size));
        return Ok(ret);
      }
      var numPages := PageLayout.NumPages(size, pageSize);
      var res := AllocPages(numPages, mmap);
      if res.Err? {
        return Err(AllocError);
      }
      var ret := res.value;
      var offset := (pageSize - (pageSize * numPages - (size + PageLayout.HEADER_SIZE))) % pageSize;
      assert offset == PageLayout.TailOffset(size, pageSize);
      PageLayout.SlowPathGeometry(size, pageSize, numPages, offset, PageLayout.PagesBytes(numPages - 1, pageSize));
      if offset != 0 {
        currentPage := Some(PageLayout.Page(PageLayout.LastPageStart(PageLayout.Block(ret, numPages), pageSize), offset));
      }
      r := Ok(ret + PageLayout.HEADER_SIZE);
    }

    /**
     * `free_pages`: takes `last` (leaving it `None`) and unmaps the whole
     * chain newest first; returns the ranges passed to `munmap`, in call order.
     */
    method FreePages() returns (unmapped: seq<PageLayout.Range>)
      requires Valid()
      modifies this
      ensures blocks == []
      ensures |unmapped| == |old(blocks)|
      ensures forall k :: 0 <= k < |unmapped| ==>
                unmapped[k] == PageLayout.BlockRange(old(blocks)[|old(blocks)| - 1 - k], pageSize)
    {
      var chain := blocks;
      blocks := [];
      unmapped := [];
      var cur := |chain|;
      while cur > 0
        invariant 0 <= cur <= |chain|
        invariant |unmapped| == |chain| - cur
        invariant forall k :: 0 <= k < |unmapped| ==> unmapped[k] == PageLayout.BlockRange(chain[|chain| - 1 - k], pageSize)
      {
        unmapped := unmapped + [PageLayout.BlockRange(chain[cur - 1], pageSize)];
        cur := cur - 1;
      }
    }
  }
}
