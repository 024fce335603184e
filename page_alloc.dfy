/**
 * Layout of the crash-safe page allocator: a bump allocator over blocks of whole pages
 * obtained from `mmap`. Each block starts with a `PageHeader` that links it to
 * the previously mapped block; objects are never freed one by one.
 *
 * The intrusive chain headed by `last` is modelled by `blocks`, oldest first:
 * `last` is the final element and each header's `next` is the element before
 * it. `mmap` is an oracle: the caller passes `None` for `MAP_FAILED` or
 * `Some(addr)` for a fresh mapping that does not overlap existing ones.
 */
module PageLayout {
  import opened Wrappers

  /** `size_of::<PageHeader>()` on a 64-bit target: an `Option<*mut>` and a `usize`. */
  const HEADER_SIZE: nat := 16

  datatype AllocError = AllocError

  /** A mapped block: its first byte (where the header lives) and its page count. */
  datatype Block = Block(start: nat, numPages: nat)

  /** The page whose tail is still free: bytes `[start + offset, start + page size)`. */
  datatype Page = Page(start: nat, offset: nat)

  /** A half-open address range `[start, start + len)`. */
  datatype Range = Range(start: nat, len: nat)

  predicate InRange(p: nat, r: Range) { r.start <= p < r.start + r.len }

  /** No address lies in both ranges. */
  predicate Disjoint(a: Range, b: Range) {
    a.len == 0 || b.len == 0 || a.start + a.len <= b.start || b.start + b.len <= a.start
  }

  predicate Within(inner: Range, outer: Range) {
    outer.start <= inner.start && inner.start + inner.len <= outer.start + outer.len
  }

  /**
   * `n * pageSize`, the byte length of `n` pages, spelled as repeated
   * addition so that invariants over many blocks stay linear;
   * `PagesBytesIsProduct` connects the two.
   */
  function PagesBytes(n: nat, pageSize: nat): nat {
    if n == 0 then 0 else PagesBytes(n - 1, pageSize) + pageSize
  }

  lemma {:induction false} PagesBytesIsProduct(n: nat, pageSize: nat)
    ensures PagesBytes(n, pageSize) == n * pageSize
  {
    if n > 0 {
      PagesBytesIsProduct(n - 1, pageSize);
    }
  }

  function BlockRange(b: Block, pageSize: nat): Range {
    Range(b.start, PagesBytes(b.numPages, pageSize))
  }

  /** Address of the final page of a block. */
  function LastPageStart(b: Block, pageSize: nat): nat
    requires b.numPages >= 1
  {
    b.start + PagesBytes(b.numPages - 1, pageSize)
  }

  /** Sum of the page counts of a chain of blocks. */
  function TotalPages(blocks: seq<Block>): nat {
    if |blocks| == 0 then 0 else TotalPages(blocks[..|blocks| - 1]) + blocks[|blocks| - 1].numPages
  }

  /**
   * Number of pages the slow path maps for a request of `size` bytes: the
   * smallest page count that holds the header and the object.
   */
  function NumPages(size: nat, pageSize: nat): (n: nat)
    requires pageSize > 0
    ensures n >= 1
    ensures (n - 1) * pageSize < size + HEADER_SIZE <= n * pageSize
  {
    var m := size + HEADER_SIZE;
    var n := (m + pageSize - 1) / pageSize;
    assert n * pageSize + (m + pageSize - 1) % pageSize == m + pageSize - 1;
    n
  }

  /**
   * The offset at which the last page of a fresh block stays usable, as the
   * slow path computes it.
   */
  function TailOffset(size: nat, pageSize: nat): (off: nat)
    requires pageSize > 0
    ensures off == (size + HEADER_SIZE) % pageSize
  {
    var n := NumPages(size, pageSize);
    var m := size + HEADER_SIZE;
    var r := m - (n - 1) * pageSize;
    assert 0 < r <= pageSize;
    ModOfMultiplePlus(n - 1, pageSize, r);
    (pageSize - (pageSize * n - m)) % pageSize
  }

  lemma ModOfMultiplePlus(q: nat, b: nat, r: nat)
    requires b > 0 && 0 < r <= b
    ensures (q * b + r) % b == (if r == b then 0 else r)
    ensures (b - (b * (q + 1) - (q * b + r))) % b == (q * b + r) % b
  {
    var a := q * b + r;
    if r == b {
      assert a == (q + 1) * b + 0;
      ModUnique(a, b, q + 1, 0);
    } else {
      ModUnique(a, b, q, r);
    }
    assert b * (q + 1) - a == b - r;
  }

  /** A non-zero multiple of `b` is at least `b` in absolute value. */
  lemma MulBounds(x: int, b: nat)
    requires b > 0
    ensures x >= 1 ==> x * b >= b
    ensures x <= -1 ==> x * b + b <= 0
  {
  }

  lemma ModUnique(a: nat, b: nat, q: nat, r: nat)
    requires b > 0 && 0 <= r < b && a == q * b + r
    ensures a % b == r && a / b == q
  {
    var q' := a / b;
    var r' := a % b;
    assert (q' - q) * b == r - r';
    MulBounds(q' - q, b);
  }

  /**
   * A request whose size leaves room for the header in the page it ends in
   * takes `size / pageSize + 1` pages; with 4 KiB pages a 10 KiB object takes
   * three.
   */
  lemma {:induction false} PagesForRequest(size: nat, pageSize: nat)
    requires pageSize > 0 && size % pageSize + HEADER_SIZE <= pageSize
    ensures NumPages(size, pageSize) == size / pageSize + 1
  {
    var n := NumPages(size, pageSize);
    var q := size / pageSize;
    var r := size % pageSize;
    assert size + HEADER_SIZE == q * pageSize + (r + HEADER_SIZE);
    assert (n - (q + 1)) * pageSize == n * pageSize - (q + 1) * pageSize;
    MulBounds(n - (q + 1), pageSize);
  }

  lemma TenKiBTakesThreePages()
    ensures NumPages(10 * 1024, 4096) == 10 * 1024 / 4096 + 1 == 3
  {
    PagesForRequest(10 * 1024, 4096);
  }

  lemma {:induction false} TotalPagesAppend(blocks: seq<Block>, b: Block)
    ensures TotalPages(blocks + [b]) == TotalPages(blocks) + b.numPages
  {
    assert (blocks + [b])[..|blocks|] == blocks;
  }

  /** Every block has at least one page and no two blocks overlap. */
  predicate BlocksOk(blocks: seq<Block>, pageSize: nat) {
    && (forall i :: 0 <= i < |blocks| ==> blocks[i].numPages >= 1)
    && (forall i, j :: 0 <= i < j < |blocks| ==>
          Disjoint(BlockRange(blocks[i], pageSize), BlockRange(blocks[j], pageSize)))
  }

  /** A range that overlaps no mapped block. */
  predicate FreshRange(r: Range, blocks: seq<Block>, pageSize: nat) {
    forall i :: 0 <= i < |blocks| ==> Disjoint(r, BlockRange(blocks[i], pageSize))
  }

  /** Each handed-out range lies in its owner block, and no two overlap. */
  predicate AllocationsOk(allocations: seq<Range>, owners: seq<nat>, blocks: seq<Block>, pageSize: nat) {
    && |owners| == |allocations|
    && (forall k :: 0 <= k < |allocations| ==>
          owners[k] < |blocks| && Within(allocations[k], BlockRange(blocks[owners[k]], pageSize)))
    && (forall k, l :: 0 <= k < l < |allocations| ==> Disjoint(allocations[k], allocations[l]))
  }

  /** The current page is the last page of block `idx` and its free tail overlaps no allocation. */
  predicate CurrentOk(cur: Option<Page>, idx: nat, blocks: seq<Block>, allocations: seq<Range>, pageSize: nat) {
    cur.Some? ==>
      && idx < |blocks|
      && cur.value.offset < pageSize
      && blocks[idx].numPages >= 1
      && cur.value.start == LastPageStart(blocks[idx], pageSize)
      && (forall k :: 0 <= k < |allocations| ==>
            Disjoint(allocations[k], Range(cur.value.start + cur.value.offset, pageSize - cur.value.offset)))
  }

  /** The allocator's invariant over the values of its fields. */
  ghost predicate Inv(pageSize: nat, blocks: seq<Block>, total: nat, allocations: seq<Range>, owners: seq<nat>,
                      cur: Option<Page>, idx: nat)
  {
    && pageSize > HEADER_SIZE
    && total == TotalPages(blocks)
    && BlocksOk(blocks, pageSize)
    && AllocationsOk(allocations, owners, blocks, pageSize)
    && CurrentOk(cur, idx, blocks, allocations, pageSize)
  }

  /** Linking in a fresh block that overlaps no mapped block keeps the invariant. */
  lemma AddBlockInv(pageSize: nat, blocks: seq<Block>, total: nat, allocations: seq<Range>, owners: seq<nat>,
                    cur: Option<Page>, idx: nat, b: Block)
    requires Inv(pageSize, blocks, total, allocations, owners, cur, idx) && b.numPages >= 1
    requires FreshRange(BlockRange(b, pageSize), blocks, pageSize)
    ensures Inv(pageSize, blocks + [b], total + b.numPages, allocations, owners, cur, idx)
  {
    TotalPagesAppend(blocks, b);
    AddBlockKeeps(blocks, b, allocations, owners, cur, idx, pageSize);
  }

  lemma AddBlockKeeps(blocks: seq<Block>, b: Block, allocations: seq<Range>, owners: seq<nat>,
                      cur: Option<Page>, idx: nat, pageSize: nat)
    requires BlocksOk(blocks, pageSize) && b.numPages >= 1
    requires FreshRange(BlockRange(b, pageSize), blocks, pageSize)
    requires AllocationsOk(allocations, owners, blocks, pageSize)
    requires CurrentOk(cur, idx, blocks, allocations, pageSize)
    ensures BlocksOk(blocks + [b], pageSize)
    ensures AllocationsOk(allocations, owners, blocks + [b], pageSize)
    ensures CurrentOk(cur, idx, blocks + [b], allocations, pageSize)
  {
    var nb := blocks + [b];
    forall i, j | 0 <= i < j < |nb|
      ensures Disjoint(BlockRange(nb[i], pageSize), BlockRange(nb[j], pageSize))
    {
      if j == |blocks| {
        assert Disjoint(BlockRange(b, pageSize), BlockRange(blocks[i], pageSize));
      }
    }
  }

  /**
   * A range inside block `idx` of a well-formed chain is disjoint from every
   * allocation that lies in another block.
   */
  lemma NewBlockDisjoint(obj: Range, idx: nat, allocations: seq<Range>, owners: seq<nat>,
                         blocks: seq<Block>, pageSize: nat)
    requires BlocksOk(blocks, pageSize)
    requires AllocationsOk(allocations, owners, blocks, pageSize)
    requires idx < |blocks| && Within(obj, BlockRange(blocks[idx], pageSize))
    requires forall k :: 0 <= k < |owners| ==> owners[k] != idx
    ensures forall k :: 0 <= k < |allocations| ==> Disjoint(allocations[k], obj)
  {
    forall k | 0 <= k < |allocations|
      ensures Disjoint(allocations[k], obj)
    {
      var o := owners[k];
      if o < idx {
        assert Disjoint(BlockRange(blocks[o], pageSize), BlockRange(blocks[idx], pageSize));
      } else {
        assert Disjoint(BlockRange(blocks[idx], pageSize), BlockRange(blocks[o], pageSize));
      }
    }
  }

  /**
   * Layout of a fresh block of `NumPages(size)` pages: the header and object
   * fill it up to `lastPage + offset`, where `lastPage` is the start of its
   * final page.
   */
  lemma SlowPathGeometry(size: nat, pageSize: nat, numPages: nat, offset: nat, lastPage: nat)
    requires pageSize > 0 && numPages == NumPages(size, pageSize) && offset == TailOffset(size, pageSize)
    requires lastPage == PagesBytes(numPages - 1, pageSize)
    ensures PagesBytes(numPages, pageSize) == lastPage + pageSize
    ensures offset < pageSize
    ensures HEADER_SIZE + size <= PagesBytes(numPages, pageSize)
    ensures offset != 0 ==> size + HEADER_SIZE == lastPage + offset
  {
    PagesBytesIsProduct(numPages - 1, pageSize);
    var r := size + HEADER_SIZE - (numPages - 1) * pageSize;
    ModOfMultiplePlus(numPages - 1, pageSize, r);
  }
  /** The fast path's object lies in the current page's tail, so the invariant survives the bump. */
  lemma FastPathInv(pageSize: nat, blocks: seq<Block>, total: nat, allocations: seq<Range>, owners: seq<nat>,
                    cur: Page, idx: nat, size: nat)
    requires Inv(pageSize, blocks, total, allocations, owners, Some(cur), idx) && pageSize - cur.offset >= size
    ensures idx < |blocks| && (size > 0 ==> InRange(cur.start + cur.offset, BlockRange(blocks[idx], pageSize)))
    ensures Inv(pageSize, blocks, total, allocations + [Range(cur.start + cur.offset, size)], owners + [idx],
                if cur.offset + size == pageSize then None else Some(Page(cur.start, cur.offset + size)), idx)
  {
    var obj := Range(cur.start + cur.offset, size);
    var b := blocks[idx];
    assert b.numPages >= 1;
    assert PagesBytes(b.numPages, pageSize) == PagesBytes(b.numPages - 1, pageSize) + pageSize;
    assert Within(obj, BlockRange(b, pageSize));
    var na := allocations + [obj];
    forall k, l | 0 <= k < l < |na|
      ensures Disjoint(na[k], na[l])
    {
      if l == |allocations| {
        assert Disjoint(allocations[k], Range(cur.start + cur.offset, pageSize - cur.offset));
      }
    }
    AppendAllocation(allocations, owners, blocks, pageSize, obj, idx);
  }

  /** Appending a range that lies in block `idx` and overlaps no allocation keeps the allocations well formed. */
  lemma AppendAllocation(allocations: seq<Range>, owners: seq<nat>, blocks: seq<Block>, pageSize: nat, obj: Range, idx: nat)
    requires AllocationsOk(allocations, owners, blocks, pageSize)
    requires idx < |blocks| && Within(obj, BlockRange(blocks[idx], pageSize))
    requires forall k :: 0 <= k < |allocations| ==> Disjoint(allocations[k], obj)
    ensures AllocationsOk(allocations + [obj], owners + [idx], blocks, pageSize)
  {
    var na := allocations + [obj];
    var no := owners + [idx];
    assert forall k :: 0 <= k < |na| ==> no[k] < |blocks| && Within(na[k], BlockRange(blocks[no[k]], pageSize));
  }

  /** The slow path's object and new tail lie in the fresh last block. */
  lemma SlowPathInv(pageSize: nat, blocks: seq<Block>, total: nat, allocations: seq<Range>, owners: seq<nat>,
                    cur: Option<Page>, idx: nat, size: nat, ret: nat, numPages: nat, offset: nat)
    requires Inv(pageSize, blocks, total, allocations, owners, cur, idx)
    requires |blocks| >= 1 && blocks[|blocks| - 1] == Block(ret, numPages)
    requires numPages == NumPages(size, pageSize) && offset == TailOffset(size, pageSize)
    requires forall k :: 0 <= k < |owners| ==> owners[k] < |blocks| - 1
    requires cur.Some? ==> idx < |blocks| - 1
    ensures size > 0 ==> InRange(ret + HEADER_SIZE, BlockRange(blocks[|blocks| - 1], pageSize))
    ensures Inv(pageSize, blocks, total, allocations + [Range(ret + HEADER_SIZE, size)], owners + [|blocks| - 1],
                if offset != 0 then Some(Page(LastPageStart(Block(ret, numPages), pageSize), offset)) else cur,
                if offset != 0 then |blocks| - 1 else idx)
  {
    var last := |blocks| - 1;
    var obj := Range(ret + HEADER_SIZE, size);
    var lastPage := PagesBytes(numPages - 1, pageSize);
    SlowPathGeometry(size, pageSize, numPages, offset, lastPage);
    assert Within(obj, BlockRange(blocks[last], pageSize));
    NewBlockDisjoint(obj, last, allocations, owners, blocks, pageSize);
    AppendAllocation(allocations, owners, blocks, pageSize, obj, last);
    if offset != 0 {
      var tail := Range(ret + lastPage + offset, pageSize - offset);
      assert Within(tail, BlockRange(blocks[last], pageSize));
      NewBlockDisjoint(tail, last, allocations, owners, blocks, pageSize);
      assert Disjoint(obj, tail);
    } else if cur.Some? {
      var c := cur.value;
      var tail := Range(c.start + c.offset, pageSize - c.offset);
      var b := blocks[idx];
      assert PagesBytes(b.numPages, pageSize) == PagesBytes(b.numPages - 1, pageSize) + pageSize;
      assert Within(tail, BlockRange(b, pageSize));
      assert Disjoint(BlockRange(b, pageSize), BlockRange(blocks[last], pageSize));
      assert Disjoint(obj, tail);
    }
  }
}

/**
 * The allocator object: the chain, the current page and the page counter,
 * with the ranges handed out so far as ghost state.
 */
module PageAlloc {
  import opened Wrappers
  import opened PageLayout


  class PageAllocator {
    /** `get_page_size()`, read once from `sysconf`. */
    const pageSize: nat
    /** The chain of mapped blocks, oldest first; `last` is the final block. */
    var blocks: seq<Block>
    var currentPage: Option<Page>
    var totalAllocatedPages: nat
    /** Every range handed out so far, and the block each one lies in. */
    ghost var allocations: seq<Range>
    ghost var owners: seq<nat>
    /** The block whose last page is `currentPage`. */
    ghost var currentBlock: nat

    ghost predicate Valid()
      reads this
    {
      Inv(pageSize, blocks, totalAllocatedPages, allocations, owners, currentPage, currentBlock)
    }

    /** `owns_pointer`'s answer: the address lies inside some mapped block. */
    ghost predicate Owns(p: nat)
      reads this
    {
      exists i :: 0 <= i < |blocks| && InRange(p, BlockRange(blocks[i], pageSize))
    }

    lemma OwnsWitness(p: nat, i: nat)
      requires i < |blocks| && InRange(p, BlockRange(blocks[i], pageSize))
      ensures Owns(p)
    {
    }

    constructor (pageSize: nat)
      requires pageSize > HEADER_SIZE
      ensures Valid() && this.pageSize == pageSize
      ensures blocks == [] && currentPage == None && totalAllocatedPages == 0
      ensures allocations == []
      ensures forall p :: !Owns(p)
    {
      this.pageSize := pageSize;
      blocks := [];
      currentPage := None;
      totalAllocatedPages := 0;
      allocations := [];
      owners := [];
      currentBlock := 0;
    }

    /** The page counter always equals the pages held by the chain. */
    function PagesAllocated(): (n: nat)
      reads this
      requires Valid()
      ensures n == TotalPages(blocks)
    {
      totalAllocatedPages
    }

    /**
     * Maps `numPages` pages and links them in as the new `last` block; on
     * `MAP_FAILED` nothing changes.
     */
    method AllocPages(numPages: nat, mmap: Option<nat>) returns (r: Result<nat, AllocError>)
      requires Valid() && numPages >= 1
      requires mmap.Some? ==> mmap.value > 0 && FreshRange(Range(mmap.value, PagesBytes(numPages, pageSize)), blocks, pageSize)
      modifies this
      ensures Valid()
      ensures mmap.None? ==> r == Err(AllocError) && unchanged(this)
      ensures mmap.Some? ==>
                && r == Ok(mmap.value)
                && blocks == old(blocks) + [Block(mmap.value, numPages)]
                && totalAllocatedPages == old(totalAllocatedPages) + numPages
                && currentPage == old(currentPage) && currentBlock == old(currentBlock)
                && allocations == old(allocations) && owners == old(owners)
    {
      if mmap.None? {
        return Err(AllocError);
      }
      var b := Block(mmap.value, numPages);
      AddBlockInv(pageSize, blocks, totalAllocatedPages, allocations, owners, currentPage, currentBlock, b);
      blocks := blocks + [b];
      totalAllocatedPages := totalAllocatedPages + numPages;
      r := Ok(mmap.value);
    }

    /**
     * `alloc_raw`: serve the request from the current page if its tail is
     * large enough, otherwise map a fresh block.
     */
    method AllocRaw(size: nat, mmap: Option<nat>) returns (r: Result<nat, AllocError>)
      requires Valid()
      requires size + HEADER_SIZE + pageSize - 1 <= USIZE_MAX
      requires mmap.Some? ==>
                 mmap.value > 0 && FreshRange(Range(mmap.value, PagesBytes(NumPages(size, pageSize), pageSize)), blocks, pageSize)
      modifies this
      ensures Valid()
      // fast path: bump inside the current page, no pages mapped
      ensures old(currentPage).Some? && pageSize - old(currentPage).value.offset >= size ==>
                && r == Ok(old(currentPage).value.start + old(currentPage).value.offset)
                && blocks == old(blocks) && totalAllocatedPages == old(totalAllocatedPages)
                && currentPage == (if old(currentPage).value.offset + size == pageSize then None
                                   else Some(Page(old(currentPage).value.start, old(currentPage).value.offset + size)))
      // slow path, mmap failed: nothing changes
      ensures !(old(currentPage).Some? && pageSize - old(currentPage).value.offset >= size) && mmap.None? ==>
                r == Err(AllocError) && unchanged(this)
      // slow path: a fresh block of NumPages pages, object right after its header
      ensures !(old(currentPage).Some? && pageSize - old(currentPage).value.offset >= size) && mmap.Some? ==>
                && r == Ok(mmap.value + HEADER_SIZE)
                && blocks == old(blocks) + [Block(mmap.value, NumPages(size, pageSize))]
                && totalAllocatedPages == old(totalAllocatedPages) + NumPages(size, pageSize)
                && currentPage == (if TailOffset(size, pageSize) != 0
                                   then Some(Page(LastPageStart(Block(mmap.value, NumPages(size, pageSize)), pageSize),
                                                  TailOffset(size, pageSize)))
                                   else old(currentPage))
      // every success hands out a range disjoint from all earlier ones (Valid)
      ensures r.Ok? ==> allocations == old(allocations) + [Range(r.value, size)]
      ensures r.Ok? && size > 0 ==> Owns(r.value)
    {
      if currentPage.Some? && pageSize - currentPage.value.offset >= size {
        r := BumpCurrentPage(size);
        return;
      }
      var numPages := NumPages(size, pageSize);
      var res := AllocPages(numPages, mmap);
      if res.Err? {
        return Err(AllocError);
      }
      var ret := res.value;
      var offset := (pageSize - (pageSize * numPages - (size + HEADER_SIZE))) % pageSize;
      r := CarveFreshBlock(size, ret, numPages, offset);
    }

    /** The fast path of `alloc_raw`: bump `offset` inside the current page. */
    method BumpCurrentPage(size: nat) returns (r: Result<nat, AllocError>)
      requires Valid() && currentPage.Some? && pageSize - currentPage.value.offset >= size
      modifies this
      ensures Valid()
      ensures r == Ok(old(currentPage).value.start + old(currentPage).value.offset)
      ensures blocks == old(blocks) && totalAllocatedPages == old(totalAllocatedPages)
      ensures currentPage == (if old(currentPage).value.offset + size == pageSize then None
                              else Some(Page(old(currentPage).value.start, old(currentPage).value.offset + size)))
      ensures allocations == old(allocations) + [Range(r.value, size)]
      ensures size > 0 ==> Owns(r.value)
    {
      var cur := currentPage.value;
      var ret := cur.start + cur.offset;
      FastPathInv(pageSize, blocks, totalAllocatedPages, allocations, owners, cur, currentBlock, size);
      ghost var idx := currentBlock;
      allocations := allocations + [Range(ret, size)];
      owners := owners + [idx];
      currentPage := if cur.offset + size == pageSize then None else Some(Page(cur.start, cur.offset + size));
      if size > 0 {
        OwnsWitness(ret, idx);
      }
      r := Ok(ret);
    }

    /**
     * The rest of the slow path once the block at `ret` is linked in: keep its
     * last page as the current page when part of it is left over, and hand
     * out the bytes after the header.
     */
    method CarveFreshBlock(size: nat, ret: nat, numPages: nat, offset: nat) returns (r: Result<nat, AllocError>)
      requires Valid() && |blocks| >= 1 && blocks[|blocks| - 1] == Block(ret, numPages)
      requires numPages == NumPages(size, pageSize)
      requires offset == (pageSize - (pageSize * numPages - (size + HEADER_SIZE))) % pageSize
      requires forall k :: 0 <= k < |owners| ==> owners[k] < |blocks| - 1
      requires currentPage.Some? ==> currentBlock < |blocks| - 1
      modifies this
      ensures Valid()
      ensures r == Ok(ret + HEADER_SIZE)
      ensures blocks == old(blocks) && totalAllocatedPages == old(totalAllocatedPages)
      ensures currentPage == (if offset != 0 then Some(Page(LastPageStart(Block(ret, numPages), pageSize), offset))
                              else old(currentPage))
      ensures allocations == old(allocations) + [Range(r.value, size)]
      ensures size > 0 ==> Owns(r.value)
    {
      assert offset == TailOffset(size, pageSize);
      SlowPathInv(pageSize, blocks, totalAllocatedPages, allocations, owners, currentPage, currentBlock,
                  size, ret, numPages, offset);
      if size > 0 {
        OwnsWitness(ret + HEADER_SIZE, |blocks| - 1);
      }
      if offset != 0 {
        currentPage := Some(Page(LastPageStart(Block(ret, numPages), pageSize), offset));
        currentBlock := |blocks| - 1;
      }
      allocations := allocations + [Range(ret + HEADER_SIZE, size)];
      owners := owners + [|blocks| - 1];
      r := Ok(ret + HEADER_SIZE);
    }

    /** `AllocRef::alloc`: the slice of `size` bytes starting at `alloc_raw`'s pointer. */
    method Alloc(size: nat, mmap: Option<nat>) returns (r: Result<Range, AllocError>)
      requires Valid()
      requires size + HEADER_SIZE + pageSize - 1 <= USIZE_MAX
      requires mmap.Some? ==>
                 mmap.value > 0 && FreshRange(Range(mmap.value, PagesBytes(NumPages(size, pageSize), pageSize)), blocks, pageSize)
      modifies this
      ensures Valid()
      // fast path: the slice starts where the current page's free tail did
      ensures old(currentPage).Some? && pageSize - old(currentPage).value.offset >= size ==>
                && r == Ok(Range(old(currentPage).value.start + old(currentPage).value.offset, size))
                && blocks == old(blocks) && totalAllocatedPages == old(totalAllocatedPages)
                && currentPage == (if old(currentPage).value.offset + size == pageSize then None
                                   else Some(Page(old(currentPage).value.start, old(currentPage).value.offset + size)))
      // slow path, mmap failed: nothing changes
      ensures !(old(currentPage).Some? && pageSize - old(currentPage).value.offset >= size) && mmap.None? ==>
                r == Err(AllocError) && unchanged(this)
      // slow path: the slice follows the header of a fresh block
      ensures !(old(currentPage).Some? && pageSize - old(currentPage).value.offset >= size) && mmap.Some? ==>
                && r == Ok(Range(mmap.value + HEADER_SIZE, size))
                && blocks == old(blocks) + [Block(mmap.value, NumPages(size, pageSize))]
                && totalAllocatedPages == old(totalAllocatedPages) + NumPages(size, pageSize)
                && currentPage == (if TailOffset(size, pageSize) != 0
                                   then Some(Page(LastPageStart(Block(mmap.value, NumPages(size, pageSize)), pageSize),
                                                  TailOffset(size, pageSize)))
                                   else old(currentPage))
      ensures r.Ok? ==> r.value.len == size && allocations == old(allocations) + [r.value]
      ensures r.Ok? && size > 0 ==> Owns(r.value.start)
      ensures r.Err? ==> unchanged(this)
    {
      var p := AllocRaw(size, mmap);
      if p.Err? {
        return Err(AllocError);
      }
      r := Ok(Range(p.value, size));
    }

    /** `AllocRef::dealloc` frees nothing: memory is returned only when the allocator is dropped. */
    method Dealloc(p: nat, size: nat)
      requires Valid()
      ensures unchanged(this)
    {
    }

    /**
     * `owns_pointer`: walks the chain from `last` through each header's
     * `next`, testing whether the address falls inside the block.
     */
    method OwnsPointer(p: nat) returns (owned: bool)
      requires Valid()
      ensures owned <==> Owns(p)
    {
      var cur := |blocks|;
      while cur > 0
        invariant 0 <= cur <= |blocks|
        invariant forall i :: cur <= i < |blocks| ==> !InRange(p, BlockRange(blocks[i], pageSize))
      {
        var b := blocks[cur - 1];
        PagesBytesIsProduct(b.numPages, pageSize);
        if p >= b.start && p < b.start + b.numPages * pageSize {
          assert InRange(p, BlockRange(blocks[cur - 1], pageSize));
          return true;
        }
        cur := cur - 1;
      }
      return false;
    }

    /**
     * `free_pages`: takes `last`, then unmaps every block newest first.
     * Returns the `(address, length)` pairs passed to `munmap`, in call order.
     */
    method FreePages() returns (unmapped: seq<Range>)
      requires Valid()
      modifies this
      ensures blocks == []
      ensures |unmapped| == |old(blocks)|
      ensures forall k :: 0 <= k < |unmapped| ==>
                unmapped[k] == BlockRange(old(blocks)[|old(blocks)| - 1 - k], pageSize)
      ensures currentPage == old(currentPage) && totalAllocatedPages == old(totalAllocatedPages)
    {
      var chain := blocks;
      blocks := [];
      unmapped := [];
      var cur := |chain|;
      while cur > 0
        invariant 0 <= cur <= |chain|
        invariant |unmapped| == |chain| - cur
        invariant forall k :: 0 <= k < |unmapped| ==> unmapped[k] == BlockRange(chain[|chain| - 1 - k], pageSize)
      {
        unmapped := unmapped + [BlockRange(chain[cur - 1], pageSize)];
        cur := cur - 1;
      }
    }
  }

  /** A fresh allocator reports no pages and owns no pointer. */
  method FreshAllocatorOwnsNothing(pageSize: nat, p: nat) returns (pages: nat, owned: bool)
    requires pageSize > HEADER_SIZE
    ensures pages == 0 && !owned
  {
    var a := new PageAllocator(pageSize);
    pages := a.PagesAllocated();
    owned := a.OwnsPointer(p);
  }
}
