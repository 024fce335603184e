# Crash-capture core of sentry-contrib-rust, modelled in Dafny

This project models the allocation-free crash-capture path of the
`breakpad-handler` crate and the `synth-elf` test-file builder. It states and
proves what each piece promises. The model covers:

- **Page allocator** (`page_alloc.dfy`, `page_alloc_legacy.dfy`): the mmap-backed
  bump allocator, with its chain of blocks, its current page and its page count.
  Allocations are proved pairwise disjoint and owned by the allocator.
- **Growable array** (`raw_vec.dfy`, `page_vec.dfy`): the `RawVec` growth policy
  (amortised doubling, exact growth, overflow checks, shrinking). It also covers
  `PageVec` over an array buffer: push, pop, insert, remove, swap_remove,
  truncate, resize, retain and dedup.
- **Crash-path utilities**: `fixed_str.dfy` covers the fixed-capacity strings
  (`FixedStr`, the NUL-terminated `FixedCStr`). `line_reader.dfy` covers the
  buffered line splitter with compaction. `fs.dfy` covers the `OpenOptions` to
  `O_*` flag computation and the `d_type` table.
- **Process dumper** (`mapping.dfy`, `dumper.dfy`, `sanitize.dfy`): parsing one
  `/proc/<pid>/maps` line, the auxiliary vector table, thread enumeration with
  consecutive de-duplication, merging adjacent mappings, moving the entry-point
  module first, the suspend/resume state, the stack window, the word-by-word
  `PTRACE_PEEKDATA` copy, and stack sanitisation with its executable-region
  bitmap.
- **Module identifiers** (`elf_id.dfy`, `elf_file.dfy`, `little_endian.dfy`):
  reading the ELF header, section lookup by name, the `PT_NOTE` iterator, the GNU
  build-id note parser, the `.text` XOR hash, and the hex and UUID renderings.
- **Minidump file writer** (`file_writer.dfy`): reserve-then-backfill over a file
  modelled as a byte sequence, and the minidump location descriptors.
- **Signal dispatcher** (`handler.dfy`): the saved alternate stack, the saved
  dispositions and the handler registry. It also models the decisions of
  `signal_handler`: reinstall, restore the default or the previous dispositions,
  and re-raise.
- **Synthetic ELF builder** (`synth_elf.dfy`): the string table, the
  identification bytes, segment size accumulation and the file layout
  `finish` produces.

Operating-system calls are oracle parameters:

- the result of `mmap`, `set_len`, `sigaction`, `sigaltstack`, `ptrace` attach,
  detach and peek, and `tgkill`;
- the chunks a `read` returns;
- the lines of the maps file and the entries of a directory.

The page size is a constant field. The target is 64-bit little-endian.
`wrappers.dfy` holds the `Option` and `Result` types.

## Model

| member | source | states |
|---|---|---|
| PageLayout.NumPages | breakpad-handler/src/alloc/page_allocator.rs:85 | the slow path maps at least one page, and it maps the smallest page count whose bytes hold the block header and the object: `(n-1)*page < size+header <= n*page` |
| PageLayout.TailOffset | breakpad-handler/src/alloc/page_allocator.rs:89-91 | the wrapped expression `(page - (page*n - (size+header))) % page` equals `(size+header) % page`, the number of bytes the object uses in the block's last page |
| PageLayout.PagesForRequest | breakpad-handler/src/alloc/page_allocator.rs:217-224 | when the request's remainder leaves room for the header in its final page, the block has `size / page + 1` pages, which is the count the `large_object` test expects |
| PageLayout.TenKiBTakesThreePages | breakpad-handler/src/alloc/page_allocator.rs:221-224 | with 4 KiB pages, a 10 KiB object takes `10*1024/4096 + 1 == 3` pages |
| PageLayout.TotalPagesAppend | breakpad-handler/src/alloc/page_allocator.rs:129 | linking a block adds exactly its page count to the chain's total |
| PageLayout.AddBlockInv | breakpad-handler/src/alloc/page_allocator.rs:124-129 | linking a fresh, non-overlapping block and adding its pages to the counter keeps the allocator invariant |
| PageLayout.AddBlockKeeps | breakpad-handler/src/alloc/page_allocator.rs:124-127 | linking such a block keeps the blocks disjoint, keeps each allocation inside its owner block and keeps the current page's tail free |
| PageLayout.SlowPathGeometry | breakpad-handler/src/alloc/page_allocator.rs:85-98 | in a fresh block, header plus object fit in its pages, the leftover offset is below one page, and a non-zero offset is exactly where the object ends in the last page |
| PageLayout.FastPathInv | breakpad-handler/src/alloc/page_allocator.rs:71-82 | bumping the current page's offset hands out a range inside the current block and disjoint from every earlier allocation; the page is dropped exactly when it fills up |
| PageLayout.SlowPathInv | breakpad-handler/src/alloc/page_allocator.rs:85-102 | the object placed after the header of a freshly mapped block is disjoint from all earlier allocations; the invariant holds with the block's last page as the new current page when the offset is non-zero |
| PageAlloc.PageAllocator.constructor | breakpad-handler/src/alloc/page_allocator.rs:53-59 | a new allocator has no blocks, no current page and a page counter of 0, and owns no address |
| PageAlloc.PageAllocator.PagesAllocated | breakpad-handler/src/alloc/page_allocator.rs:62-64 | the counter always equals the sum of the page counts of the blocks in the chain |
| PageAlloc.PageAllocator.AllocPages | breakpad-handler/src/alloc/page_allocator.rs:106-132 | when `mmap` fails, it returns an error and changes nothing; otherwise the new block becomes the chain's last block, the counter grows by its page count, and nothing else changes |
| PageAlloc.PageAllocator.AllocRaw | breakpad-handler/src/alloc/page_allocator.rs:66-104 | a request is served by bumping inside the current page when it fits; otherwise a fresh block of `NumPages` pages is mapped and the object placed after its header. A failed mapping changes nothing. Every success hands out a range owned by the allocator and disjoint from all earlier ones |
| PageAlloc.PageAllocator.BumpCurrentPage | breakpad-handler/src/alloc/page_allocator.rs:71-82 | the fast path returns `start + offset`, advances the offset by the size, and drops the page when it is full; blocks and counter are unchanged |
| PageAlloc.PageAllocator.CarveFreshBlock | breakpad-handler/src/alloc/page_allocator.rs:89-102 | after a block is linked in, the object starts right after the header, and the last page becomes the current page exactly when the offset is non-zero |
| PageAlloc.PageAllocator.Alloc | breakpad-handler/src/alloc/page_allocator.rs:174-182 | `alloc` behaves as `alloc_raw` and returns the slice `Range(addr, size)` at the address `alloc_raw` gives. On the fast path the slice starts at the current page's free offset and only that offset moves; the page is dropped when it fills exactly. On the slow path the slice starts one header past the new mapping, the block is chained with its page count, and a partly used last page becomes the current page. A failed `mmap` is `AllocError` and changes nothing. Every success is recorded as a new allocation, and a non-empty one is owned by the allocator |
| PageAlloc.PageAllocator.Dealloc | breakpad-handler/src/alloc/page_allocator.rs:184-187 | deallocation changes nothing |
| PageAlloc.PageAllocator.OwnsPointer | breakpad-handler/src/alloc/page_allocator.rs:153-170 | the chain walk answers true exactly when the address lies inside one of the mapped blocks |
| PageAlloc.PageAllocator.FreePages | breakpad-handler/src/alloc/page_allocator.rs:134-150 | every mapped block is unmapped exactly once, newest first, with its full byte length, and the chain is left empty |
| PageAlloc.FreshAllocatorOwnsNothing | breakpad-handler/src/alloc/page_allocator.rs:200-204 | a freshly built allocator reports 0 pages and owns no pointer |
| PageAllocLegacy.PageAllocator.constructor | breakpad-handler/src/page_allocator.rs:53-59 | the legacy allocator starts with no blocks, no current page and a page counter of 0 |
| PageAllocLegacy.PageAllocator.AllocPages | breakpad-handler/src/page_allocator.rs:101-127 | when `mmap` fails, it returns an error and changes nothing; otherwise it links the block as the chain's last block and adds its pages to the counter |
| PageAllocLegacy.PageAllocator.Alloc | breakpad-handler/src/page_allocator.rs:61-99 | it uses the same fast path, slow path and failure behaviour as the newer `alloc_raw`, proved against the same shared layout functions |
| PageAllocLegacy.PageAllocator.FreePages | breakpad-handler/src/page_allocator.rs:129-145 | every block is unmapped once, newest first, with its full length; the chain is left empty |
| RawVec.WrappingSub | breakpad-handler/src/alloc/raw_vec.rs:247-249 | `usize::wrapping_sub` stays within `usize` and equals the true difference, or the difference plus 2^64 when it would be negative |
| RawVec.NeedsToGrowIff | breakpad-handler/src/alloc/raw_vec.rs:247-249 | while the length is within the capacity, `needs_to_grow` holds exactly when `len + additional` exceeds the capacity |
| RawVec.NeedsToGrowPastCapacity | breakpad-handler/src/alloc/raw_vec.rs:247-249 | with a length beyond the capacity, the wrapped subtraction reports no need to grow for any `additional` up to `2^64 - (len - cap)` |
| RawVec.AmortizedCap | breakpad-handler/src/alloc/raw_vec.rs:279-301 | the amortised target is at least the required capacity, at least double the current one and at least the minimum non-zero capacity (8, 4 or 1 by element size), and it is one of those three |
| RawVec.CapacityFromBytes | breakpad-handler/src/alloc/raw_vec.rs:251-254 | the capacity read back from a slice is the largest element count whose bytes fit in the slice |
| RawVec.AllocGuard | breakpad-handler/src/alloc/raw_vec.rs:416-431 | the guard fails, always with `CapacityOverflow`, exactly on targets narrower than 64 bits when the size exceeds `isize::MAX` |
| RawVec.AllocGuardNeverFailsOn64 | breakpad-handler/src/alloc/raw_vec.rs:416-431 | on a 64-bit target the guard accepts every size |
| RawVec.LayoutArray | breakpad-handler/src/alloc/raw_vec.rs:303 | `Layout::array` yields `n * size` when that, rounded up to the alignment, fits in `isize::MAX`, and fails exactly when it does not |
| RawVec.GrantCoversRequest | breakpad-handler/src/alloc/raw_vec.rs:251-259 | when the allocator returns at least the requested bytes, the capacity read back covers the requested capacity |
| RawVec.CapacityExact | breakpad-handler/src/alloc/raw_vec.rs:251-254 | a slice of exactly `n` elements reads back as capacity `n` |
| RawVec.AmortizedGrowSuffices | breakpad-handler/src/alloc/raw_vec.rs:268-309 | after a successful amortised grow that honours the request, the capacity is at least `len + additional` and at least double the old capacity |
| RawVec.RawVec.NewIn | breakpad-handler/src/alloc/raw_vec.rs:51-58 | a new buffer has capacity 0 and no allocation |
| RawVec.RawVec.WithCapacityIn | breakpad-handler/src/alloc/raw_vec.rs:63-103 | a zero-sized element type gets no allocation; otherwise the buffer adopts the granted pointer with at least the requested capacity |
| RawVec.RawVec.CurrentMemory | breakpad-handler/src/alloc/raw_vec.rs:148-161 | there is a live allocation exactly when the element size and the capacity are non-zero; its byte size reads back as exactly `cap` elements, holds at least one element, and stays within `isize::MAX` |
| RawVec.RawVec.SetPtr | breakpad-handler/src/alloc/raw_vec.rs:256-259 | the buffer adopts the slice's address, and its capacity is the number of whole elements in the slice |
| RawVec.RawVec.FinishGrow | breakpad-handler/src/alloc/raw_vec.rs:360-385 | a layout overflow gives `CapacityOverflow` and an allocator refusal gives `AllocError` with the layout size, and neither changes the buffer; success adopts the grant |
| RawVec.RawVec.GrowAmortized | breakpad-handler/src/alloc/raw_vec.rs:268-309 | zero-sized elements and an overflowing `len + additional` give `CapacityOverflow`; otherwise the buffer asks for `AmortizedCap` and, on success, takes the granted pointer and the capacity read back from its length. Every error leaves the buffer unchanged |
| RawVec.RawVec.GrowExact | breakpad-handler/src/alloc/raw_vec.rs:314-330 | the same error cases as the amortised grow, but it asks for exactly `len + additional` elements; on success the buffer takes the granted pointer and capacity |
| RawVec.RawVec.TryReserve | breakpad-handler/src/alloc/raw_vec.rs:187-193 | when no growth is needed it is `Ok` and changes nothing; otherwise it behaves as `GrowAmortized`, taking the granted pointer and capacity on success; an error never changes the buffer |
| RawVec.RawVec.TryReserveExact | breakpad-handler/src/alloc/raw_vec.rs:217-227 | when no growth is needed it is `Ok` and changes nothing; otherwise it behaves as `GrowExact`, taking the granted pointer and capacity on success |
| RawVec.RawVec.Shrink | breakpad-handler/src/alloc/raw_vec.rs:332-353 | with no live allocation it is an `Ok` no-op; an allocator refusal gives `AllocError` and changes nothing; success adopts the new slice |
| PageVec.Filter | breakpad-handler/src/alloc/page_vec.rs:242-262 | the reference definition of `retain`: the elements satisfying the predicate, in order, never more than the input |
| PageVec.DedupPrefix | breakpad-handler/src/alloc/page_vec.rs:273-322 | the reference definition of `dedup_by`: the result is never longer than the input, and a non-empty input keeps its first element |
| PageVec.DedupNoAdjacentSameBucket | breakpad-handler/src/alloc/page_vec.rs:273-322 | no two neighbours in the deduplicated sequence are in the same bucket |
| PageVec.DedupKeepsInputElements | breakpad-handler/src/alloc/page_vec.rs:273-322 | every kept element is an element of the input |
| PageVec.DedupByEqualityHasNoRepeats | breakpad-handler/src/alloc/page_vec.rs:521-523 | `dedup`, whose bucket relation is equality, leaves no two equal neighbours |
| PageVec.Repeat | breakpad-handler/src/alloc/page_vec.rs:458-484 | `n` copies of the value: length `n`, every slot equal to the value |
| PageVec.SaturatingAdd | breakpad-handler/src/alloc/page_vec.rs:678 | `usize::saturating_add` never exceeds `usize::MAX` nor the true sum, is at least either operand, is the true sum when that fits and `usize::MAX` otherwise |
| PageVec.RetainInPlace | breakpad-handler/src/alloc/page_vec.rs:246-258 | the swap loop leaves exactly `Filter(old prefix)` in the first `n - del` slots |
| PageVec.DedupInPlace | breakpad-handler/src/alloc/page_vec.rs:273-322 | the read/write cursor loop leaves exactly `Dedup(old prefix)` in the first `next_write` slots |
| PageVec.ShiftUp | breakpad-handler/src/alloc/page_vec.rs:204 | the overlapping copy moves slots `index..len` up by one and leaves the slots before `index` and after `len` untouched |
| PageVec.InsertAt | breakpad-handler/src/alloc/page_vec.rs:197-209 | after the shift and the write, the first `len + 1` slots are `old[..index] + [x] + old[index..len]` |
| PageVec.ShiftDown | breakpad-handler/src/alloc/page_vec.rs:235 | the overlapping copy moves slots `index+1..len` down by one and leaves the slots before `index` untouched |
| PageVec.PageVec.NewIn | breakpad-handler/src/alloc/page_vec.rs:42-47 | a new vector is empty, with length 0 and capacity 0 |
| PageVec.PageVec.Reserve | breakpad-handler/src/alloc/page_vec.rs:81-83 | the contents never change; without a need to grow, the capacity is kept; a success leaves room for `len + additional` elements, and a grow gives exactly the amortised target |
| PageVec.PageVec.Push | breakpad-handler/src/alloc/page_vec.rs:325-336 | a success appends the element and raises the length by one; a vector that is not full never reallocates; `len <= capacity` afterwards |
| PageVec.PageVec.Pop | breakpad-handler/src/alloc/page_vec.rs:339-348 | an empty vector gives `None`; otherwise it returns the last element and shortens the vector by one |
| PageVec.PageVec.Truncate | breakpad-handler/src/alloc/page_vec.rs:98-115 | a longer `n` is a no-op; otherwise exactly the first `n` elements remain |
| PageVec.PageVec.Clear | breakpad-handler/src/alloc/page_vec.rs:368-370 | the vector becomes empty and keeps its capacity |
| PageVec.PageVec.SwapRemove | breakpad-handler/src/alloc/page_vec.rs:152-175 | it returns element `index`, moves the last element into its slot (the plain prefix when `index` is last), and shortens the vector by one |
| PageVec.PageVec.Insert | breakpad-handler/src/alloc/page_vec.rs:177-211 | a success yields `old[..index] + [x] + old[index..]`; a failed reservation leaves the contents unchanged |
| PageVec.PageVec.Remove | breakpad-handler/src/alloc/page_vec.rs:213-240 | it returns element `index` and leaves `old[..index] + old[index+1..]` |
| PageVec.PageVec.Retain | breakpad-handler/src/alloc/page_vec.rs:242-262 | the contents become `Filter(old, f)`: exactly the elements satisfying `f`, in their original order |
| PageVec.PageVec.DedupBy | breakpad-handler/src/alloc/page_vec.rs:273-322 | the contents become `Dedup(old, same_bucket)`: the first element of each run of same-bucket neighbours |
| PageVec.PageVec.ExtendWith | breakpad-handler/src/alloc/page_vec.rs:458-484 | a success appends exactly `n` copies of the value; failure leaves the contents unchanged |
| PageVec.PageVec.Resize | breakpad-handler/src/alloc/page_vec.rs:406-414 | a longer target appends copies of the value up to the new length; otherwise it truncates to the new length |
| PageVec.PageVec.ExtendDesugared | breakpad-handler/src/alloc/page_vec.rs:666-686 | a success appends the whole iterator in order; a failure leaves some prefix of it appended |
| FixedStr.FixedStr.AsRef | breakpad-handler/src/utils/fixed_str.rs:50-55 | the text is the first `ind` bytes, and `ind` never exceeds the capacity |
| FixedStr.FixedStr.constructor | breakpad-handler/src/utils/fixed_str.rs:11-16 | a new buffer holds the empty string |
| FixedStr.FixedStr.FromSlice | breakpad-handler/src/utils/fixed_str.rs:18-30 | the result is `None` exactly when the slice is longer than the capacity; otherwise `as_ref` gives back the slice |
| FixedStr.FixedStr.CopyIn | breakpad-handler/src/utils/fixed_str.rs:23-24 | copying a slice into the front of an empty buffer makes it the text |
| FixedStr.FixedStr.Clear | breakpad-handler/src/utils/fixed_str.rs:33-37 | the length becomes 0 and every byte of the buffer is zero |
| FixedStr.FixedStr.WriteStr | breakpad-handler/src/utils/fixed_str.rs:58-67 | the write succeeds exactly when `ind + len <= N`, and then appends the string; a failure changes neither `ind` nor any byte |
| FixedStr.FixedStr.WritePieces | breakpad-handler/src/utils/fixed_str.rs:132-150 | `write!` leaves the text and success flag given by `Written`: the pieces are written in order until the first one that does not fit |
| FixedStr.FixedCStr.Text | breakpad-handler/src/utils/fixed_str.rs:69-71 | the text is always shorter than the capacity, so a NUL slot remains |
| FixedStr.FixedCStr.AsRef | breakpad-handler/src/utils/fixed_str.rs:109-114 | `as_ref` is the text followed by exactly one NUL |
| FixedStr.FixedCStr.constructor | breakpad-handler/src/utils/fixed_str.rs:75-79 | a new C string is empty |
| FixedStr.FixedCStr.FromPtr | breakpad-handler/src/utils/fixed_str.rs:81-101 | a null pointer or a `strlen` of `N` or more gives `None`; otherwise `as_ref` is the pointed-to bytes up to and including the first NUL |
| FixedStr.FixedCStr.Clear | breakpad-handler/src/utils/fixed_str.rs:104-106 | the C string becomes empty |
| FixedStr.FixedCStr.WriteStr | breakpad-handler/src/utils/fixed_str.rs:116-125 | the write succeeds exactly when `ind + len + 1 <= N`, and then appends the string; a failure keeps the text |
| FixedStr.FixedCStr.WritePieces | breakpad-handler/src/utils/fixed_str.rs:138-157 | `write!` on a C string behaves as `Written` with one byte of the capacity kept for the NUL |
| FixedStr.Strlen | breakpad-handler/src/utils/fixed_str.rs:87 | `strlen` is the index of the first NUL: the byte there is 0 and no byte before it is |
| FixedStr.WrittenSpec | breakpad-handler/src/utils/fixed_str.rs:58-67 | writing pieces succeeds exactly when all of them fit, and then extends the text by all of them; a failure keeps a prefix of that text that still starts with the old text, so earlier pieces survive |
| FixedStr.Written | breakpad-handler/src/utils/fixed_str.rs:132-157 | writing pieces only ever appends to the text and never takes it past the capacity |
| FixedStr.ProcTaskFits | breakpad-handler/src/utils/fixed_str.rs:132-144 | `/proc/{}/task` with 35234 fits in 32 bytes, both as a `FixedStr` and as a `FixedCStr` |
| FixedStr.ProcTaskTooLong | breakpad-handler/src/utils/fixed_str.rs:146-158 | the same write fails in a `FixedStr<15>` and a `FixedCStr<16>`, leaving `/proc/35234` |
| LineReader.Reader.Read | breakpad-handler/src/utils/line_reader.rs:79 | the inner reader fails without change when broken; otherwise it copies the next `min(room, chunk, remaining)` input bytes behind `from` and consumes them, with 0 meaning end of input |
| LineReader.FirstNewline | breakpad-handler/src/utils/line_reader.rs:46-53 | the result is the index of the first `\n`, or `None` exactly when there is no `\n` |
| LineReader.NextLineShape | breakpad-handler/src/utils/line_reader.rs:46-53 | a returned line has no newline, is shorter than the buffer, and strictly consumes input |
| LineReader.NextLineOfTerminated | breakpad-handler/src/utils/line_reader.rs:46-61 | a newline-terminated line comes back whole, with the newline consumed, exactly when it is shorter than the buffer; otherwise it is too long |
| LineReader.LineReader.constructor | breakpad-handler/src/utils/line_reader.rs:16-24 | a new reader has an empty buffer, is not at end of file, and has all the input pending |
| LineReader.LineReader.Next | breakpad-handler/src/utils/line_reader.rs:30-92 | after end of file it always gives `None`. Otherwise it gives the line `NextLine` picks from the pending bytes, as a `FixedStr` holding exactly those bytes, and consumes it with its newline. An over-long line gives `None` and consumes nothing; end of input gives `None` and sets end of file |
| LineReader.NextLine | breakpad-handler/src/utils/line_reader.rs:30-92 | a line and the rest put back together, with the newline between them, give the unread bytes (or the line is all of them); there is no line exactly when the buffer is empty or nothing is left |
| LineReader.LineReader.NextBytes | breakpad-handler/src/utils/line_reader.rs:30-92 | the same as `Next` on the bytes of the line; a read error gives `None` and consumes nothing |
| LineReader.LineReader.TakeTail | breakpad-handler/src/utils/line_reader.rs:36-44 | at end of file, the unread bytes come back once as the final unterminated line, and after that nothing is left |
| LineReader.LineReader.TakeLine | breakpad-handler/src/utils/line_reader.rs:46-53 | the bytes from `cursor` up to the first newline are returned, and `cursor` moves past that newline |
| LineReader.LineReader.Refill | breakpad-handler/src/utils/line_reader.rs:55-90 | the unread bytes move to the front or the buffer is emptied, then a read fills behind them; the pending bytes never change, and each successful read strictly consumes input |
| LineReader.LineReader.ReadMore | breakpad-handler/src/utils/line_reader.rs:79-90 | a read of 0 sets end of file with fewer than `N` bytes buffered, a positive read grows `filled`, and an error reports failure; the pending bytes never change |
| LineReader.LineReader.Compact | breakpad-handler/src/utils/line_reader.rs:63-72 | the unread bytes move to `buf[0..]` and `filled` becomes their count; the pending bytes never change |
| LineReader.ScanNewline | breakpad-handler/src/utils/line_reader.rs:46-53 | the scan of `buf[cursor..filled]` finds exactly the first newline, or reports that there is none |
| LineReader.FirstNewlineAppend | breakpad-handler/src/utils/line_reader.rs:46-53 | a newline found in the buffered prefix is the first newline of everything pending, so a line that spans refills is found after them |
| LineReader.LargeLinesBytes | breakpad-handler/src/utils/line_reader.rs:136-143 | the test input is 1024 `a`s with a newline at positions 200, 401, 602, 803 and 1004 |
| LineReader.LargeLinesSplit | breakpad-handler/src/utils/line_reader.rs:148-158 | through a 512-byte buffer that input yields five 200-byte lines, then the 19-byte tail, then nothing |
| LineReader.BufferLimits | breakpad-handler/src/utils/line_reader.rs:99-188 | 511 bytes with a newline, or 511 bytes at end of file, fit a 512-byte buffer; 513 bytes without a newline give `None`; empty input gives no line |
| Fs.OpenOptions.constructor | breakpad-handler/src/utils/fs.rs:20-33 | new options request nothing, have no custom flags and mode `0o666` |
| Fs.OpenOptions.SetRead | breakpad-handler/src/utils/fs.rs:36-38 | it sets `read` and leaves every other option unchanged |
| Fs.OpenOptions.SetWrite | breakpad-handler/src/utils/fs.rs:41-43 | it sets `write` and leaves every other option unchanged |
| Fs.OpenOptions.SetAppend | breakpad-handler/src/utils/fs.rs:46-48 | it sets `append` and leaves every other option unchanged |
| Fs.OpenOptions.SetTruncate | breakpad-handler/src/utils/fs.rs:51-53 | it sets `truncate` and leaves every other option unchanged |
| Fs.OpenOptions.SetCreate | breakpad-handler/src/utils/fs.rs:56-58 | it sets `create` and leaves every other option unchanged |
| Fs.OpenOptions.SetCreateNew | breakpad-handler/src/utils/fs.rs:61-63 | it sets `create_new` and leaves every other option unchanged |
| Fs.OpenOptions.SetCustomFlags | breakpad-handler/src/utils/fs.rs:66-68 | it sets the custom flags and leaves every other option unchanged |
| Fs.OpenOptions.SetMode | breakpad-handler/src/utils/fs.rs:71-73 | it sets the mode and leaves every other option unchanged |
| Fs.OpenOptions.GetAccessMode | breakpad-handler/src/utils/fs.rs:75-84 | it is `EINVAL` exactly when none of read, write or append is set. Otherwise the access bits are `O_RDWR` when read is combined with write or append, `O_RDONLY` for read alone, and `O_WRONLY` otherwise. `O_APPEND` is set exactly when append is, and no other bit is set |
| Fs.OpenOptions.GetCreationMode | breakpad-handler/src/utils/fs.rs:86-108 | it is `EINVAL` exactly when truncate, create or create_new is asked without write or append, or truncate is asked with append but without create_new. create_new gives `O_CREAT|O_EXCL`; otherwise `O_CREAT` follows create and `O_TRUNC` follows truncate, with no other bit set |
| Fs.OpenOptions.OpenFlags | breakpad-handler/src/utils/fs.rs:113-117 | it fails with `EINVAL` exactly when either mode fails. The flags always carry `O_CLOEXEC`; the access bits are those of the access mode, so custom flags cannot change them |
| Fs.OpenFlagsKeepCreation | breakpad-handler/src/utils/fs.rs:113-117 | the flag word holds every bit of the creation mode |
| Fs.OpenFlagsKeepCustom | breakpad-handler/src/utils/fs.rs:113-117 | the flag word holds every custom flag outside `O_ACCMODE` |
| Fs.FileType | breakpad-handler/src/utils/fs.rs:188-213 | exactly the seven known `DT_*` values map to a mode, namely the `S_IF*` mode whose type field is that `DT_*` value (`DTTOIF`); every other value is `NotFound` |
| Mapping.AtValue | breakpad-handler/src/linux/ptrace_dumper.rs:72-149 | every `AT_*` kind has a discriminant of at most 33 (`SysInfoEhdr`) |
| Mapping.AtKindRoundTrip | breakpad-handler/src/linux/ptrace_dumper.rs:152-183 | `from_int` inverts the discriminant for every kind except `Null`, which has no arm and gives `None`; every value it accepts is the discriminant of the kind it returns |
| Mapping.FindMappingNoBias | breakpad-handler/src/linux/ptrace_dumper.rs:486-490 | the result is the first mapping containing the address (`start <= a < start + size`), or `None` exactly when no mapping contains it |
| Mapping.ContainsAddress | breakpad-handler/src/linux/ptrace_dumper.rs:232-234 | an address is contained only in a non-empty mapping, at or above its start |
| Mapping.FindIn | breakpad-handler/src/linux/ptrace_dumper.rs:244-252 | `str::find` on a sub-slice returns a position inside the range that holds the character |
| Mapping.FindInFirst | breakpad-handler/src/linux/ptrace_dumper.rs:244-252 | the position found is the first in the range, and `None` means the character is nowhere in the range |
| Mapping.ParseHex | breakpad-handler/src/linux/ptrace_dumper.rs:245-254 | `from_str_radix(_, 16)` accepts an optional `+` and at least one digit, and rejects values above `usize::MAX` |
| Mapping.HexValue | breakpad-handler/src/linux/ptrace_dumper.rs:245-254 | the digits have a value exactly when every character of the range is a hexadecimal digit |
| Mapping.ParseMapping | breakpad-handler/src/linux/ptrace_dumper.rs:240-275 | every parsed mapping has both start fields equal to the start address, the size as the wrapping difference of end and start, addresses within `usize`, and a name of at most 255 characters (bytes, for an ASCII line) |
| Mapping.ParseAfterStart | breakpad-handler/src/linux/ptrace_dumper.rs:247-248 | after the start address, a parsed mapping keeps that start |
| Mapping.ParseAfterRange | breakpad-handler/src/linux/ptrace_dumper.rs:250-271 | after the range, a parsed mapping keeps the start and the end it was given |
| Mapping.NameFrom | breakpad-handler/src/linux/ptrace_dumper.rs:256-261 | the name is empty or starts with `/` |
| Mapping.NoDashRejected | breakpad-handler/src/linux/ptrace_dumper.rs:244-274 | a line without `-` is `InvalidMapping` |
| Mapping.BadStartRejected | breakpad-handler/src/linux/ptrace_dumper.rs:245-274 | a non-hex character in the start address is `InvalidMapping` |
| Mapping.ParseBySteps | breakpad-handler/src/linux/ptrace_dumper.rs:243-272 | a line whose every step succeeds parses to exactly the values those steps found, or to `InvalidMapping` when the name exceeds 255 characters (bytes, for an ASCII line) |
| Mapping.HexStringRoundTrip | breakpad-handler/src/linux/ptrace_dumper.rs:245 | a number written in hexadecimal reads back as the number |
| Mapping.PaddedHexRoundTrip | breakpad-handler/src/linux/ptrace_dumper.rs:253-254 | a zero-padded hexadecimal field such as `0001b000` reads back as its number |
| Mapping.ParseMapsLine | breakpad-handler/src/linux/ptrace_dumper.rs:240-275 | a maps line as proc(5) lays it out parses to its fields. The start and end are copied, and the size is their wrapping difference. `has_exec` holds exactly when `x` is among the permissions, and the offset is read. The name is the path from the first `/` after the offset field, or empty (as for `[vdso]`). A path over 255 bytes is rejected |
| Mapping.ParseLaidOut | breakpad-handler/src/linux/ptrace_dumper.rs:243-272 | the same for any line whose fields stand where a maps line has them |
| Dumper.DecodeAux | breakpad-handler/src/linux/ptrace_dumper.rs:49-62 | the kind is the first little-endian `u64` of the entry truncated to `u32`, the value the second `u64`. An unknown kind gives `None`, exactly when `from_int` rejects the truncated word |
| Dumper.Resized | breakpad-handler/src/linux/ptrace_dumper.rs:350 | the table has exactly `n` slots. The old slots below `n` are kept and the new ones are `None` |
| Dumper.AuxvLoop | breakpad-handler/src/linux/ptrace_dumper.rs:355-366 | the loop keeps the table length fixed |
| Dumper.AuxEntries | breakpad-handler/src/linux/ptrace_dumper.rs:355-366 | the loop decodes at most one entry per read |
| Dumper.LastOf | breakpad-handler/src/linux/ptrace_dumper.rs:355-366 | there is no value exactly when no entry has the kind; otherwise the value is that of an entry of the kind with none after it |
| Dumper.AuxvLastWins | breakpad-handler/src/linux/ptrace_dumper.rs:357-372 | after the loop, each kind's slot holds the value of the last entry of that kind read before the first failed or short read. A kind with no such entry keeps its old slot. The loop reports success exactly when at least one entry decoded |
| Dumper.LastOfCons | breakpad-handler/src/linux/ptrace_dumper.rs:364 | a later entry of a kind overrides an earlier one |
| Dumper.AtValueInjective | breakpad-handler/src/linux/ptrace_dumper.rs:72-149 | different kinds index different slots, so storing one kind never overwrites another |
| Dumper.AuxvSlot | breakpad-handler/src/linux/ptrace_dumper.rs:364 | indexing the table succeeds exactly when the kind's discriminant is below its length |
| Dumper.AuxvAsWrittenMissesVdso | breakpad-handler/src/linux/ptrace_dumper.rs:350-412 | with the table resized to `SysInfoEhdr as usize` (33), the `SysInfoEhdr` slot is out of bounds, and it is the only kind whose slot is |
| Dumper.AuxvHoldsEveryKind | breakpad-handler/src/linux/ptrace_dumper.rs:349-350 | a table of 34 slots has a slot for every kind, `SysInfoEhdr` included |
| Dumper.Tids | breakpad-handler/src/linux/ptrace_dumper.rs:387-389 | the directory entries that name a thread id give at most one id each |
| Dumper.ThreadIdsStep | breakpad-handler/src/linux/ptrace_dumper.rs:387-396 | one more directory entry appends its id exactly when it names an id and that id differs from the last id seen; otherwise the list is unchanged |
| Dumper.ThreadIds | breakpad-handler/src/linux/ptrace_dumper.rs:375-399 | the recorded threads are at most the directory entries, and no two neighbours are the same id |
| Dumper.AsSlots | breakpad-handler/src/linux/ptrace_dumper.rs:392 | every id becomes an occupied slot, in order |
| Dumper.DedupPrefixFrame | breakpad-handler/src/linux/ptrace_dumper.rs:383-396 | deduplicating the first `n` ids depends only on those ids |
| Dumper.DedupLast | breakpad-handler/src/linux/ptrace_dumper.rs:390-392 | the last id kept is the last id seen (`last_tid`) |
| Dumper.DedupAppend | breakpad-handler/src/linux/ptrace_dumper.rs:390-392 | an id is appended exactly when it differs from the previous one |
| Dumper.DedupCovers | breakpad-handler/src/linux/ptrace_dumper.rs:383-396 | no listed id is lost by the deduplication |
| Dumper.DedupIdentity | breakpad-handler/src/linux/ptrace_dumper.rs:383-384 | a listing without consecutive duplicates passes through unchanged |
| Dumper.ThreadIdsSpec | breakpad-handler/src/linux/ptrace_dumper.rs:375-399 | the thread list has no two equal neighbours. It holds exactly the ids the directory listed. A listing without consecutive duplicates is kept entire |
| Dumper.ParsedLines | breakpad-handler/src/linux/ptrace_dumper.rs:425-428 | one parse result per maps line, and every mapping that parsed has the parser's shape |
| Dumper.Prepare | breakpad-handler/src/linux/ptrace_dumper.rs:428-435 | a mapping starting at the vDSO address is renamed `linux-gate.so` with offset 0, and keeps its range and exec flag. Any other mapping is unchanged. A line that did not parse stays absent |
| Dumper.Prepared | breakpad-handler/src/linux/ptrace_dumper.rs:425-459 | the lines that parsed give at most one mapping each, all of parser shape |
| Dumper.Merged | breakpad-handler/src/linux/ptrace_dumper.rs:449-451 | the merged mapping starts where the previous one starts and ends where the new one ends. It keeps the previous name and is executable when either part is |
| Dumper.MergeStep | breakpad-handler/src/linux/ptrace_dumper.rs:444-461 | a step grows the list by at most one mapping and keeps the parser's shape |
| Dumper.Collect | breakpad-handler/src/linux/ptrace_dumper.rs:425-462 | the loop adds at most one mapping per parsed line |
| Dumper.CollectLineStep | breakpad-handler/src/linux/ptrace_dumper.rs:425-462 | one more maps line either leaves the list as it was (no parse) or applies one merge step to its prepared mapping |
| Dumper.CoveredSnoc | breakpad-handler/src/linux/ptrace_dumper.rs:461 | pushing a mapping adds exactly that mapping's addresses to those covered |
| Dumper.MergedCoversBoth | breakpad-handler/src/linux/ptrace_dumper.rs:444-453 | merging a mapping into the one it continues covers exactly the addresses of the two |
| Dumper.MergeStepCovers | breakpad-handler/src/linux/ptrace_dumper.rs:444-461 | a merge-or-push step covers exactly the old addresses plus the new mapping's |
| Dumper.CollectCovers | breakpad-handler/src/linux/ptrace_dumper.rs:425-462 | merging neither loses nor invents an address. The final list covers exactly what the old list and the parsed mappings cover |
| Dumper.MoveToFront | breakpad-handler/src/linux/ptrace_dumper.rs:473-474 | `remove` then `insert(0, _)` keeps the length |
| Dumper.EntryFirst | breakpad-handler/src/linux/ptrace_dumper.rs:468-477 | the entry-point step keeps the length |
| Dumper.EntryFirstPermutes | breakpad-handler/src/linux/ptrace_dumper.rs:468-477 | the entry-point step only reorders the mappings (same multiset) |
| Dumper.EntryFirstFront | breakpad-handler/src/linux/ptrace_dumper.rs:464-477 | when a mapping contains the entry point, the first such mapping is moved to index 0 and the others keep their order. Otherwise nothing moves |
| Dumper.SuspendedSlots | breakpad-handler/src/linux/ptrace_dumper.rs:564-573 | the pass keeps one slot per thread |
| Dumper.SuspendedSlotsSpec | breakpad-handler/src/linux/ptrace_dumper.rs:564-573 | a slot is still occupied exactly when it was occupied and its attach succeeded. An occupied slot keeps its id |
| Dumper.StackInfo | breakpad-handler/src/linux/ptrace_dumper.rs:682-696 | the window starts at the stack pointer rounded down to its page |
| Dumper.StackInfoInside | breakpad-handler/src/linux/ptrace_dumper.rs:682-696 | the window lies in the first mapping containing the rounded pointer and is never empty. It never runs past that mapping's end, and it is shorter than 32 KiB only when it reaches that end. No containing mapping means `None` |
| Dumper.StackInfoAsWritten | breakpad-handler/src/linux/ptrace_dumper.rs:682-696 | as written, the window exists exactly when the intended one does, starts at the same rounded pointer and is capped at 32 KiB; only its length differs |
| Dumper.StackInfoOverruns | breakpad-handler/src/linux/ptrace_dumper.rs:689 | for a pointer in the last page of a 0x21000-byte stack, the wrapping `size - stack_ptr - start` yields a 32 KiB window that runs 0x7000 bytes past the mapping. The intended window is the last 0x1000 bytes |
| Dumper.PeekedBytes | breakpad-handler/src/linux/ptrace_dumper.rs:705-724 | the word-by-word copy produces exactly `n` bytes |
| Dumper.WordsOf | breakpad-handler/src/linux/ptrace_dumper.rs:712-717 | one peeked word per 8 bytes of process memory |
| Dumper.PeekedBytesOfMemory | breakpad-handler/src/linux/ptrace_dumper.rs:698-725 | when every peek succeeds, the copy reproduces the process's memory byte for byte |
| Dumper.CopyAsWrittenLosesMemory | breakpad-handler/src/linux/ptrace_dumper.rs:700-722 | memory whose first byte is not zero differs from the all-zero buffer the as-written copy produces |
| Dumper.CopyFromProcessAsWritten | breakpad-handler/src/linux/ptrace_dumper.rs:698-725 | as written, `word` is only ever assigned 0, so the first `n` destination bytes become zero and the rest are untouched |
| Dumper.CopyFromProcess | breakpad-handler/src/linux/ptrace_dumper.rs:698-725 | destination byte `k` is byte `k mod 8` of the `k / 8`-th peeked word, or zero where that peek failed. Nothing past `n` is touched |
| Dumper.StoreAuxEntries | breakpad-handler/src/linux/ptrace_dumper.rs:355-366 | the loop computes the table and flag of `AuxvLoop`, so `AuxvLastWins` applies to it |
| Dumper.DirThreads | breakpad-handler/src/linux/ptrace_dumper.rs:385-396 | the loop pushes exactly the deduplicated thread ids, so `ThreadIdsSpec` applies to it |
| Dumper.MergeLines | breakpad-handler/src/linux/ptrace_dumper.rs:425-462 | the loop computes `Collect` of the prepared lines, so `CollectCovers` applies to it |
| Dumper.MoveEntryFirst | breakpad-handler/src/linux/ptrace_dumper.rs:468-477 | the result is `EntryFirst`, so `EntryFirstPermutes` and `EntryFirstFront` apply to it |
| Dumper.PTraceDumper.constructor | breakpad-handler/src/linux/ptrace_dumper.rs:304-322 | a new dumper has no threads, mappings or auxv entries, and its threads are not suspended |
| Dumper.PTraceDumper.ReadAuxv | breakpad-handler/src/linux/ptrace_dumper.rs:340-373 | (corrected; see Findings) an open failure is an error and changes nothing. Otherwise the table is resized to 34 slots, one per kind, where the source has 33, and filled by the loop. The call fails with `NoValidAuxvEntries` exactly when no entry decoded. Threads and mappings are untouched |
| Dumper.PTraceDumper.EnumerateThreads | breakpad-handler/src/linux/ptrace_dumper.rs:375-399 | an open failure is an error and changes nothing. Otherwise the deduplicated ids are appended to the thread list. Nothing else changes |
| Dumper.PTraceDumper.EnumerateMappings | breakpad-handler/src/linux/ptrace_dumper.rs:401-480 | an open failure is an error. Otherwise the prepared, merged mappings of the maps lines are appended, and the entry-point mapping is moved first. Threads and the auxv table are untouched |
| Dumper.PTraceDumper.FindMapping | breakpad-handler/src/linux/ptrace_dumper.rs:486-490 | the result is a listed mapping containing the address, and `None` exactly when no mapping covers it |
| Dumper.PTraceDumper.SanitizeStack | breakpad-handler/src/linux/ptrace_dumper.rs:730-820 | (corrected; see Findings) the stack buffer becomes `Sanitized` of its old contents, with the mapping of the original stack pointer as the stack mapping (see `Sanitize.SanitizedWord`). The source's loop does not advance past a kept word; this is the loop that does |
| Dumper.PTraceDumper.SuspendThreads | breakpad-handler/src/linux/ptrace_dumper.rs:492-582 | already suspended: `Ok` and nothing changes. Otherwise a thread stays exactly when `SuspendThread` holds for its system call results (with the intended `waitpid` retry; see Findings), the others are dropped, and the threads count as suspended. The call fails with `NoValidThreads` exactly when no thread is left |
| Dumper.SuspendThread | breakpad-handler/src/linux/ptrace_dumper.rs:497-560 | a thread counts as suspended exactly when `PTRACE_ATTACH` works, the `waitpid` loop (as intended) ends with a pid, and `PTRACE_GETREGS` reads a non-null stack pointer |
| Dumper.Suspended | breakpad-handler/src/linux/ptrace_dumper.rs:563-572 | the attach pass gives each listed slot the `SuspendThread` verdict of its own system calls |
| Dumper.WaitLoopAsWritten | breakpad-handler/src/linux/ptrace_dumper.rs:514-524 | as written, a pid ends the loop with success and `EINTR` ends it with failure; other errors keep it going, and outcomes that run out leave it still going |
| Dumper.WaitAsWrittenSpins | breakpad-handler/src/linux/ptrace_dumper.rs:514-524 | as written, a `waitpid` error other than `EINTR` that keeps coming back never ends the loop, however many calls are made |
| Dumper.WaitLoop | breakpad-handler/src/linux/ptrace_dumper.rs:514-524 | (corrected; see Findings) a pid ends the loop with success, any error other than `EINTR` ends it with failure |
| Dumper.WaitLoopStops | breakpad-handler/src/linux/ptrace_dumper.rs:514-524 | (corrected; see Findings) the loop ends at the first outcome that is not `EINTR`, and succeeds exactly when that outcome is a pid |
| Dumper.WaitLoopKeepsGoing | breakpad-handler/src/linux/ptrace_dumper.rs:514-524 | (corrected; see Findings) the loop keeps going only while every outcome is `EINTR` |
| Dumper.WaitLoopsDiffer | breakpad-handler/src/linux/ptrace_dumper.rs:514-524 | an `EINTR` followed by a pid makes the loop as written give up where the intended loop succeeds |
| Dumper.PTraceDumper.ResumeThreads | breakpad-handler/src/linux/ptrace_dumper.rs:584-608 | not suspended: `ThreadsNotSuspended`. Otherwise the threads no longer count as suspended, and the call fails with `AllThreadsNotResumed` exactly when some listed thread's detach failed. The thread list is kept |
| Sanitize.SetBit | breakpad-handler/src/linux/ptrace_dumper.rs:761 | setting a bit keeps the bitmap at 256 bytes |
| Sanitize.SetBitSpec | breakpad-handler/src/linux/ptrace_dumper.rs:761 | or-ing `1 << (t & 7)` into byte `(t >> 3) & ARRAY_MASK` sets bit `t` and clears no bit that was set |
| Sanitize.MarkRange | breakpad-handler/src/linux/ptrace_dumper.rs:760-762 | the inner loop keeps the bitmap at 256 bytes |
| Sanitize.MarkRangeSpec | breakpad-handler/src/linux/ptrace_dumper.rs:760-762 | `for bit in start..=end` sets every bit of the inclusive range and clears none |
| Sanitize.EmptyBitmap | breakpad-handler/src/linux/ptrace_dumper.rs:750 | the bitmap starts as 256 bytes |
| Sanitize.HitBitmap | breakpad-handler/src/linux/ptrace_dumper.rs:750-763 | the bitmap built over the module list has 256 bytes |
| Sanitize.HitBitmapCovers | breakpad-handler/src/linux/ptrace_dumper.rs:750-763 | every address inside an executable mapping has its 2 MiB region's bit set, so a clear bit rules out every executable mapping |
| Sanitize.HitBitmapSnoc | breakpad-handler/src/linux/ptrace_dumper.rs:752-763 | one more mapping marks its regions `start >> 21 ..= (start + size) >> 21` when it is executable, and changes nothing otherwise |
| Sanitize.MarkBits | breakpad-handler/src/linux/ptrace_dumper.rs:760-762 | the inner loop on the array leaves the bitmap `MarkRange` says |
| Sanitize.CouldHitMapping | breakpad-handler/src/linux/ptrace_dumper.rs:750-763 | the loop over the mappings builds exactly `HitBitmap` in a fresh 256-byte array |
| Sanitize.DecideSpec | breakpad-handler/src/linux/ptrace_dumper.rs:780-811 | every small integer, stack address or pointer into the first executable mapping that holds it is kept. Every kept word is a small integer, a stack address or an address in some executable mapping. `last_hit_mapping` stays an executable mapping of the list |
| Sanitize.WriteWord | breakpad-handler/src/linux/ptrace_dumper.rs:811 | `sp.write(v)` keeps the stack length |
| Sanitize.WriteWordSpec | breakpad-handler/src/linux/ptrace_dumper.rs:811 | the word at `p` becomes the little-endian bytes of `v`, and no other byte changes |
| Sanitize.StepStack | breakpad-handler/src/linux/ptrace_dumper.rs:781-812 | the loop body keeps the stack length |
| Sanitize.StepStackFrame | breakpad-handler/src/linux/ptrace_dumper.rs:781-812 | the loop body changes no byte outside the word at `sp` |
| Sanitize.StepStackWord | breakpad-handler/src/linux/ptrace_dumper.rs:781-812 | the loop body leaves every later word as it was |
| Sanitize.StepSpec | breakpad-handler/src/linux/ptrace_dumper.rs:781-812 | the word at `sp` comes out unchanged and justified, or as the sentinel in place of an unprotected word. The remembered mapping stays valid |
| Sanitize.StepHitOk | breakpad-handler/src/linux/ptrace_dumper.rs:793-808 | `last_hit_mapping` only ever holds an executable mapping of the list |
| Sanitize.SanitizeFrom | breakpad-handler/src/linux/ptrace_dumper.rs:780-813 | the intended word loop keeps the stack length |
| Sanitize.SanitizeFromStep | breakpad-handler/src/linux/ptrace_dumper.rs:780-813 | with a whole word left, the loop handles the word at `sp` and goes on from the next word |
| Sanitize.SanitizeFromDone | breakpad-handler/src/linux/ptrace_dumper.rs:780 | once `sp` is past the last whole word, the loop stops and changes nothing |
| Sanitize.SanitizeFromFrame | breakpad-handler/src/linux/ptrace_dumper.rs:774-813 | the loop never touches a byte below where it starts |
| Sanitize.SanitizeFromFirstWord | breakpad-handler/src/linux/ptrace_dumper.rs:780-813 | the first word the loop visits comes out as `Outcome` says |
| Sanitize.ReachWord | breakpad-handler/src/linux/ptrace_dumper.rs:780-813 | from an aligned start, the loop reaches each later aligned word with that word still intact and a valid remembered mapping |
| Sanitize.SanitizeFromWord | breakpad-handler/src/linux/ptrace_dumper.rs:780-813 | every word the loop visits ends up unchanged and justified, or as the sentinel in place of an unprotected word |
| Sanitize.ZeroOffset | breakpad-handler/src/linux/ptrace_dumper.rs:766-767 | the offset is rounded up to the next multiple of 8, never past `offset + 7` |
| Sanitize.ZeroHead | breakpad-handler/src/linux/ptrace_dumper.rs:768-770 | zeroing the head keeps the stack length |
| Sanitize.ZeroPartial | breakpad-handler/src/linux/ptrace_dumper.rs:815-818 | zeroing the trailing partial word keeps the stack length |
| Sanitize.Sanitized | breakpad-handler/src/linux/ptrace_dumper.rs:730-820 | sanitizing keeps the stack length |
| Sanitize.SanitizedHead | breakpad-handler/src/linux/ptrace_dumper.rs:765-770 | every byte below the rounded-up offset becomes zero |
| Sanitize.SanitizedTail | breakpad-handler/src/linux/ptrace_dumper.rs:815-818 | every byte of the trailing partial word becomes zero |
| Sanitize.SanitizedWord | breakpad-handler/src/linux/ptrace_dumper.rs:772-813 | every full aligned word from the rounded-up offset on is either kept for a reason or replaced by the sentinel. It is never replaced when it is a small integer, a stack address or a pointer into an executable mapping |
| Sanitize.WriteWordAt | breakpad-handler/src/linux/ptrace_dumper.rs:811 | the array becomes `WriteWord` of its old contents |
| Sanitize.ZeroFill | breakpad-handler/src/linux/ptrace_dumper.rs:769 | `fill(0)` zeroes exactly `lo..hi` |
| Sanitize.LookupCode | breakpad-handler/src/linux/ptrace_dumper.rs:799-809 | the bitmap test followed by the lookup gives the first containing mapping exactly when the word's bit is set and that mapping is executable |
| Sanitize.KeepStep | breakpad-handler/src/linux/ptrace_dumper.rs:783-808 | a `continue` leaves the stack as it was and remembers the new hit |
| Sanitize.ClobberStep | breakpad-handler/src/linux/ptrace_dumper.rs:811 | a fall-through writes the sentinel and keeps the remembered mapping |
| Sanitize.SanitizeWord | breakpad-handler/src/linux/ptrace_dumper.rs:781-812 | (corrected; see Findings) one pass changes the stack and the remembered mapping as `StepStack` and `StepHit` say, and the rest of the loop continues from the next word, kept or overwritten; the source advances only past an overwritten word |
| Sanitize.SanitizeWords | breakpad-handler/src/linux/ptrace_dumper.rs:772-813 | the word loop from the rounded-up offset leaves the stack as `SanitizeFrom` says |
| Sanitize.ZeroBelow | breakpad-handler/src/linux/ptrace_dumper.rs:768-770 | the bytes below the rounded-up offset are zeroed and the rest are kept |
| Sanitize.ZeroTrailing | breakpad-handler/src/linux/ptrace_dumper.rs:815-818 | the bytes after the last full word are zeroed and the rest are kept |
| Sanitize.SanitizeStackBytes | breakpad-handler/src/linux/ptrace_dumper.rs:747-819 | the stack becomes `Sanitized` of its old contents, so `SanitizedHead`, `SanitizedWord` and `SanitizedTail` describe every byte |
| Sanitize.SweepAsWrittenSpins | breakpad-handler/src/linux/ptrace_dumper.rs:783-785 | as written, once `sp` points at a small word the state never changes again and the loop condition still holds, because `continue` does not advance `sp` |
| Sanitize.SweepStepAsWritten | breakpad-handler/src/linux/ptrace_dumper.rs:783-808 | one pass as written changes the stack and the remembered mapping exactly as the corrected step does, but moves `sp` on only when it overwrites the word; a small word leaves the whole state unchanged |
| Sanitize.SweepAsWritten | breakpad-handler/src/linux/ptrace_dumper.rs:780-813 | passes of the loop as written keep the stack length and never move `sp` backwards; no pass, or `sp` past the last word, leaves the state as it was |
| Sanitize.ZeroWordStackSpins | breakpad-handler/src/linux/ptrace_dumper.rs:780-813 | a one-word stack holding 0 spins forever as written, while the intended loop keeps the word and stops |
| LittleEndian.LeBytes | breakpad-handler/src/linux/ptrace_dumper.rs:722 | `to_ne_bytes` on the little-endian target gives exactly `n` bytes |
| LittleEndian.ByteOfZero | breakpad-handler/src/linux/ptrace_dumper.rs:700-722 | every byte of the zero word is zero |
| LittleEndian.LeAtBound | breakpad-handler/src/linux/ptrace_dumper.rs:49-62 | an `n`-byte little-endian read is below `256^n`, so a `u64` read fits a `u64` |
| LittleEndian.ByteOfLeAt | breakpad-handler/src/linux/ptrace_dumper.rs:722 | byte `j` of a value read from `n` bytes is the `j`-th of those bytes |
| LittleEndian.LeBytesOfLeAt | breakpad-handler/src/linux/ptrace_dumper.rs:722 | `to_ne_bytes` of a word read with `from_ne_bytes` reproduces the bytes it was read from |
| LittleEndian.LeAtFrame | breakpad-handler/src/linux/ptrace_dumper.rs:781 | a read depends only on the bytes it reads |
| Elf.AsRef | breakpad-handler/src/linux/elf.rs:322-326 | the identifier bytes are the first `len` bytes of the buffer |
| Elf.New | breakpad-handler/src/linux/elf.rs:233-244 | an identifier is made exactly when the slice has at most 64 bytes. It then holds the slice in a valid 64-byte buffer |
| Elf.ToHex | breakpad-handler/src/linux/elf.rs:309-319 | two uppercase hex digits per byte, high nibble first, so the output is twice as long as the input |
| Elf.FromHexToHex | breakpad-handler/src/linux/elf.rs:219-230 | the uppercase hex rendering can be read back into the bytes it came from |
| Elf.HexValueOfDigit | breakpad-handler/src/linux/elf.rs:221-225 | each digit of `0123456789ABCDEF` stands for its own value |
| Elf.UuidBytes | breakpad-handler/src/linux/elf.rs:271-304 | the UUID always has 16 bytes |
| Elf.UuidIndexInvolution | breakpad-handler/src/linux/elf.rs:275-303 | the copied bytes are rearranged by a permutation that is its own inverse, so no byte is lost or duplicated |
| Elf.UuidIndexFull | breakpad-handler/src/linux/elf.rs:279-303 | for an identifier of 16 bytes or more, the first group of 4 and the next two groups of 2 are byte-reversed and the last 8 bytes keep their order |
| Elf.UuidIndex | breakpad-handler/src/linux/elf.rs:275-303 | a copied slot takes a copied byte, a slot of the first group takes a byte of that group, and slots after the three groups keep their own byte |
| Elf.ReverseGroup | breakpad-handler/src/linux/elf.rs:280-283 | `to_be_bytes(from_ne_bytes(part))` on a little-endian host writes the group reversed and touches no other slot |
| Elf.AsUuidString | breakpad-handler/src/linux/elf.rs:269-307 | the result is the hex rendering of the rearranged 16 bytes, always 32 digits |
| Elf.Align4 | breakpad-handler/src/linux/elf.rs:349-354 | the 4-byte alignment lands on the next multiple of 4, at most 3 bytes further |
| Elf.NoteAt | breakpad-handler/src/linux/elf.rs:342-372 | a note that parses ends at least 12 bytes after its start, and at most 3 padding bytes past the data |
| Elf.NoteBody | breakpad-handler/src/linux/elf.rs:364-371 | the name is skipped and the descriptor sliced within the data |
| Elf.BuildIdFromNote | breakpad-handler/src/linux/elf.rs:375-384 | the loop returns the first build-id note whose descriptor fits an `ElfId`. It reads until a note fails to parse |
| Elf.BuildIdFrom | breakpad-handler/src/linux/elf.rs:328-384 | any identifier the note scan finds is a valid `ElfId` |
| Elf.Pad4 | breakpad-handler/src/linux/elf.rs:348-354 | padding keeps the bytes and extends them to the next multiple of 4 |
| Elf.EncodeNote | breakpad-handler/src/linux/elf.rs:356-371 | an encoded note is the 12-byte header followed by the padded name and the padded descriptor |
| Elf.LeAtOfLeBytes | breakpad-handler/src/linux/elf.rs:358-362 | reading back the little-endian bytes of a value below `256^n` gives that value |
| Elf.FieldAt | breakpad-handler/src/linux/elf.rs:358-362 | a 32-bit field is read back as the value written there |
| Elf.NoteAtFields | breakpad-handler/src/linux/elf.rs:342-372 | header fields and a descriptor placed at the offsets they name make `NoteAt` return that note and the aligned end |
| Elf.EncodeNoteParts | breakpad-handler/src/linux/elf.rs:356-371 | the header fields and the descriptor sit where the note layout puts them |
| Elf.EncodeNoteFields | breakpad-handler/src/linux/elf.rs:358-368 | the header fields of an encoded note read back as the name size, the descriptor size and the type |
| Elf.PlacedU32 | breakpad-handler/src/linux/elf.rs:358-362 | a field read inside placed bytes reads the same in the enclosing data |
| Elf.PlacedSlice | breakpad-handler/src/linux/elf.rs:368 | a slice inside placed bytes is the same slice of the enclosing data |
| Elf.NoteOffsets | breakpad-handler/src/linux/elf.rs:364-369 | past the 12-byte header, the descriptor and the note's end fall where the padded name and descriptor put them |
| Elf.NoteAtLaidOut | breakpad-handler/src/linux/elf.rs:342-372 | bytes laid out as a note, wherever they are placed, parse back into that note and end where the layout ends |
| Elf.EncodeNoteLaidOut | breakpad-handler/src/linux/elf.rs:356-371 | the encoding of a note is laid out as that note |
| Elf.Encodings | breakpad-handler/src/linux/elf.rs:375-382 | one encoding per note |
| Elf.EncodingsLaidOut | breakpad-handler/src/linux/elf.rs:375-382 | the encoded note data is the notes' encodings laid end to end, each laid out as its note |
| Elf.BuildIdFromStep | breakpad-handler/src/linux/elf.rs:376-381 | one note of the loop: a build-id note that fits ends it, any other note moves on to the next offset |
| Elf.BuildIdLaidOut | breakpad-handler/src/linux/elf.rs:376-381 | a note laid out at an offset is taken by the loop or skipped past |
| Elf.PlacedSplit | breakpad-handler/src/linux/elf.rs:376 | two byte strings placed together are each placed at their offset |
| Elf.BuildIdOfLaidOut | breakpad-handler/src/linux/elf.rs:328-385 | notes laid out one after another to the end of the data yield the first build-id note that fits, skipping notes of other types and build ids over 64 bytes |
| Elf.BuildIdOfNotes | breakpad-handler/src/linux/elf.rs:328-385 | round trip: the build id read from encoded notes is the first fitting build-id note among them |
| ElfFile.Read | breakpad-handler/src/linux/elf.rs:14-41 | fewer than four bytes panic on the magic check. Otherwise the image is accepted exactly when it has the ELF magic, a known class byte and a whole file header of that class, which is then read |
| ElfFile.HeaderOf | breakpad-handler/src/linux/elf.rs:22-41 | `parse_header` keeps the class and reads the counts and the string table index as 2-byte fields and the table offsets as 4-byte (32-bit) or 8-byte (64-bit) fields |
| ElfFile.SliceOf | breakpad-handler/src/linux/elf.rs:58-59 | a slice is taken exactly when it lies inside the data, and holds exactly those bytes; otherwise the indexing panics |
| ElfFile.TableEntry | breakpad-handler/src/linux/elf.rs:50-57 | entry `i` of a table of `n` entries lies inside the table |
| ElfFile.SectionHeaders | breakpad-handler/src/linux/elf.rs:50-55 | the section header table has `e_shnum` entries |
| ElfFile.Names | breakpad-handler/src/linux/elf.rs:57-59 | a string-table index or range out of bounds is a panic |
| ElfFile.FoundBytes | breakpad-handler/src/linux/elf.rs:71-74 | a matching section header, or a program header the iterator yields (elf.rs 153), gives its bytes, or a panic exactly when they run past the image; it never gives nothing |
| ElfFile.FindFromFirstMatch | breakpad-handler/src/linux/elf.rs:63-78 | the scan yields the first section header of the type whose name starts with the wanted bytes, and yields nothing exactly when no header matches |
| ElfFile.FindSectionByName | breakpad-handler/src/linux/elf.rs:43-90 | the method computes `SectionNamed`: no section table means `None`, an out-of-range table or string table panics, and otherwise `FindFromFirstMatch` describes the answer |
| ElfFile.SectionNamed | breakpad-handler/src/linux/elf.rs:43-90 | no section header table gives `None`; a table past the end of the image is `OutOfBounds`; a section is found only through a table that lies inside the image |
| ElfFile.SegmentTable | breakpad-handler/src/linux/elf.rs:168-191 | the program header table slice holds `e_phnum` headers of the class's size |
| ElfFile.ProgramHeaders | breakpad-handler/src/linux/elf.rs:140-142 | one decoded header per entry |
| ElfFile.NextSegment | breakpad-handler/src/linux/elf.rs:138-166 | an exhausted search leaves the position at the end. A yielded segment moves the position forward, past the header it came from |
| ElfFile.NextSegmentFirstMatch | breakpad-handler/src/linux/elf.rs:144-157 | `next` yields the first header of the kind at or after the position and leaves the position just past it. It yields nothing exactly when no later header has the kind |
| ElfFile.PHIter.constructor | breakpad-handler/src/linux/elf.rs:96-103 | a new iterator holds the table, the image and the kind, and starts at position 0 |
| ElfFile.PHIter.Next | breakpad-handler/src/linux/elf.rs:138-166 | the result and the new position are `NextSegment` of the old position, so `NextSegmentFirstMatch` applies |
| ElfFile.IterSegments | breakpad-handler/src/linux/elf.rs:92-192 | a program header table out of range panics. Otherwise the iterator is fresh, at position 0, over the image's program headers of the kind |
| ElfFile.FirstPage | breakpad-handler/src/linux/elf.rs:399 | the hash reads at most the first 4 KiB of `.text`, a prefix of it |
| ElfFile.TextHash | breakpad-handler/src/linux/elf.rs:395-407 | the hash has 16 bytes |
| ElfFile.ColumnXorPrefix | breakpad-handler/src/linux/elf.rs:403-407 | the fold reads only the whole chunks it covers |
| ElfFile.TextHashIgnoresTail | breakpad-handler/src/linux/elf.rs:399-407 | bytes past 4 KiB, and a trailing partial chunk of a shorter `.text`, do not change the hash |
| ElfFile.XorChunk | breakpad-handler/src/linux/elf.rs:404-406 | each identifier byte is XORed with the matching byte of the chunk |
| ElfFile.FoldTextChunks | breakpad-handler/src/linux/elf.rs:395-407 | the loop computes `TextHash`, so `TextHashIgnoresTail` applies |
| ElfFile.HashTextSection | breakpad-handler/src/linux/elf.rs:387-410 | a missing `.text` panics on `unwrap`. Otherwise the identifier is the 16-byte hash of its first page |
| ElfFile.TextId | breakpad-handler/src/linux/elf.rs:387-410 | the hash fails exactly when no `.text` section of type `SHT_PROGBITS` is found, and otherwise always gives a valid identifier |
| ElfFile.TextIdSome | breakpad-handler/src/linux/elf.rs:387-410 | the text hash always gives a 16-byte identifier |
| ElfFile.FromNoteSegmentsSome | breakpad-handler/src/linux/elf.rs:253-266 | once the note search falls through to the text hash, an answer is always an identifier |
| ElfFile.IdentifierOfSome | breakpad-handler/src/linux/elf.rs:246-267 | `from_mapped_file` either panics or returns an identifier; it never returns `None` |
| ElfFile.FromMappedFile | breakpad-handler/src/linux/elf.rs:246-267 | the result is `IdentifierOf`: the build id from the first `PT_NOTE` segment that has one, else from `.note.gnu.build-id`, else the text hash. A refused image panics on `unwrap` |
| ElfFile.IdentifierOf | breakpad-handler/src/linux/elf.rs:246-267 | an image that is not ELF fails, and any identifier found is a valid one |
| ElfFile.FromNoteSegments | breakpad-handler/src/linux/elf.rs:253-266 | any identifier the note segments or the fallback give is a valid one |
| ElfFile.FromSections | breakpad-handler/src/linux/elf.rs:259-266 | any identifier found is valid, and the text hash is used unless reading the build-id section fails or it holds a build id, which is then the answer |
| Writer.LocationOf | breakpad-handler/src/linux/file_writer.rs:104-109 | the descriptor fields are the reservation's position and size cast to `u32`, that is, taken modulo 2^32 |
| Writer.LocationExact | breakpad-handler/src/linux/file_writer.rs:104-109 | a reservation below 4 GiB is described exactly |
| Writer.PagesCover | breakpad-handler/src/linux/file_writer.rs:38-40 | `size / page_size + 1` pages hold more than `size` bytes and at most one page more |
| Writer.GrownLen | breakpad-handler/src/linux/file_writer.rs:38-40 | the file grows by more than `size` bytes and by at most `size` plus one page |
| Writer.Resized | breakpad-handler/src/linux/file_writer.rs:41 | `set_len` gives a file of exactly `n` bytes, the old bytes kept and the new ones zero |
| Writer.WriteAt | breakpad-handler/src/linux/file_writer.rs:111-119 | the bytes land at the offset and no other byte changes. A hole past the old end reads as zeros |
| Writer.ElementInside | breakpad-handler/src/linux/file_writer.rs:136-148 | element `index` of an array of `count` ends within the array |
| Writer.FileWriter.constructor | breakpad-handler/src/linux/file_writer.rs:20-27 | a new writer has reserved nothing and grown nothing |
| Writer.FileWriter.ReserveRaw | breakpad-handler/src/linux/file_writer.rs:34-50 | when fewer than `size` bytes are left below `len`, the file is grown to `GrownLen`. The call fails exactly when growth was needed and `set_len` failed, and then changes nothing. On success the reservation starts at the old `pos`, and `pos` moves past it. The cursor never moves, and nothing is ever reserved past the grown length |
| Writer.FileWriter.Reserve | breakpad-handler/src/linux/file_writer.rs:53-60 | one item of the type's size is reserved at the old position. The file and `len` change exactly as `ReserveRaw` grows them, the cursor stays, and the call fails exactly when growth was needed and `set_len` failed, leaving `pos` where it was |
| Writer.FileWriter.ReserveArray | breakpad-handler/src/linux/file_writer.rs:63-72 | `count` items are reserved at the old position, one after another. The file and `len` change exactly as `ReserveRaw` grows them, the cursor stays, and the call fails exactly when growth was needed and `set_len` failed, leaving `pos` where it was |
| Writer.FileWriter.ReserveHeaderArray | breakpad-handler/src/linux/file_writer.rs:75-87 | a header followed by `count` items is reserved at the old position. The file and `len` change exactly as `ReserveRaw` grows them, the cursor stays, and the call fails exactly when growth was needed and `set_len` failed, leaving `pos` where it was |
| Writer.FileWriter.WriteItem | breakpad-handler/src/linux/file_writer.rs:111-119 | the item's bytes land at its reservation and the cursor returns to `pos`. A failed write changes no byte |
| Writer.FileWriter.WriteElement | breakpad-handler/src/linux/file_writer.rs:136-148 | element `index` lands `index` elements past the reservation's start. A failed write changes no byte |
| Writer.FileWriter.WriteHeader | breakpad-handler/src/linux/file_writer.rs:166-175 | the header lands at the start of the reservation. A failed write changes no byte |
| Writer.FileWriter.WriteHeaderElement | breakpad-handler/src/linux/file_writer.rs:177-190 | element `index` lands past the header, `index` elements in. A failed write changes no byte |
| Writer.ReserveTwice | breakpad-handler/src/linux/file_writer.rs:34-50 | two successful reservations in a row are adjacent, do not overlap, and both lie below the grown length; both succeed whenever every `set_len` does |
| Writer.ArrayElementInside | breakpad-handler/src/linux/file_writer.rs:136-148 | every element write of an array handle stays inside its reservation |
| Writer.HeaderElementInside | breakpad-handler/src/linux/file_writer.rs:177-190 | every element write of a header array stays past the header and inside the reservation |
| Handler.RestoreLosesSmallStack | breakpad-handler/src/linux/handler.rs:89-92 | as written, `StackSave::old` is kept only for a disabled stack. An enabled 8 KiB stack that was replaced is therefore not given back on restore: the process ends up with no alternate stack |
| Handler.KeptAsWritten | breakpad-handler/src/linux/handler.rs:89-92 | as written, the previous stack is saved exactly when it is disabled, and then as it was; this never agrees with the intended `Kept` |
| Handler.RestoreGivesBackStack | breakpad-handler/src/linux/handler.rs:28-131 | with the enabled previous stack kept, installing over any insufficient stack and then restoring gives that stack back (two disabled stacks count as the same) |
| Handler.Installed | breakpad-handler/src/linux/handler.rs:223-227 | the six dispositions after installing are six, ours wherever `sigaction` worked |
| Handler.Restored | breakpad-handler/src/linux/handler.rs:174-186 | the six dispositions after restoring are six, the saved one or the default where restoring failed |
| Handler.InstallRestoreRoundTrip | breakpad-handler/src/linux/handler.rs:174-232 | when every restore works, restoring gives back the saved dispositions whichever installs failed. Every successful install installs our handler, masking all six signals, with `SA_ONSTACK` and `SA_SIGINFO` |
| Handler.FirstHandler | breakpad-handler/src/linux/handler.rs:282-292 | a handler found is a live registry entry at or after the start that answered `true` |
| Handler.FirstHandlerIsFirst | breakpad-handler/src/linux/handler.rs:282-292 | handlers are asked in push order and the first live one that handles the signal wins. None is found exactly when no live handler handles it |
| Handler.ReraiseOf | breakpad-handler/src/linux/handler.rs:306-322 | the signal is re-raised exactly when it was sent by a process (`si_code <= 0`) or is `SIGABRT`. The process exits exactly when that re-raise fails |
| Handler.Dispatcher.constructor | breakpad-handler/src/linux/handler.rs:24-235 | the process starts with its own alternate stack and dispositions, and nothing saved, registered or mapped |
| Handler.Dispatcher.InstallSigaltstack | breakpad-handler/src/linux/handler.rs:28-95 | (corrected; see Findings) a sufficient existing stack is kept and nothing changes. A failed `mmap` is `OutOfMemory` with nothing changed. Otherwise a guard page and 16 KiB are mapped, the 16 KiB above the guard page become the alternate stack, and the previous stack is kept when it was enabled, where the source keeps it only when it was disabled |
| Handler.Dispatcher.RestoreSigaltstack | breakpad-handler/src/linux/handler.rs:97-131 | with nothing saved, or a failed query, nothing changes. A failed `sigaltstack` set stops it with nothing changed. Otherwise the stack becomes the kept one (or disabled) only if the current stack is ours, then exactly the addresses of the stack recorded as installed are unmapped and the record cleared |
| Handler.GuardPageStaysMapped | breakpad-handler/src/linux/handler.rs:127 | unmapping the registered stack leaves exactly the guard page of the mapping `install_sigaltstack` made still mapped |
| Handler.Dispatcher.InstallHandlers | breakpad-handler/src/linux/handler.rs:188-232 | once dispositions are saved, or if any query fails, nothing changes. Otherwise the previous six are saved and ours installed wherever `sigaction` works |
| Handler.Dispatcher.InstallDefaultHandler | breakpad-handler/src/linux/handler.rs:135-157 | exactly the disposition of that signal becomes `SIG_DFL`; nothing else changes |
| Handler.Dispatcher.RestoreHandlers | breakpad-handler/src/linux/handler.rs:174-186 | the saved dispositions are put back (the default where that fails) and the saved table is always cleared. With nothing saved the dispositions are unchanged |
| Handler.Dispatcher.HandleSignal | breakpad-handler/src/linux/handler.rs:472-529 | the process becomes dumpable when the signal is a fault or a `kill`/`tgkill` from this process. The answer is whether the dump was written |
| Handler.Dispatcher.SignalHandlerEntry | breakpad-handler/src/linux/handler.rs:237-323 | our disposition without `SA_SIGINFO` is reinstalled (or the default where that fails) and the handler returns with `dumpable` unchanged. Otherwise the first live handler that handles the signal is found: the signal then gets the default disposition, and if none handled it all dispositions are restored. The process becomes dumpable exactly when the signal is trusted and some handler was alive to be asked. Re-raising follows `ReraiseOf`. The registry, the alternate stack, the mapped regions and the id counter are untouched |
| Handler.Dispatcher.Attach | breakpad-handler/src/linux/handler.rs:702-719 | attaching fails exactly when a new alternate stack was needed and could not be mapped, and then changes nothing. On success the alternate stack is sufficient: the old one kept, or a new one mapped and the previous saved as `InstallSigaltstack` does. The dispositions are saved and ours installed as `InstallHandlers` does, or left alone when already saved or a query failed. Exactly one new live id is pushed on the registry |
| Handler.Dispatcher.Detach | breakpad-handler/src/linux/handler.rs:721-742 | the handler's first registry entry is removed, if it is there and live, and the handler stops being live; otherwise the registry is unchanged. When the registry becomes empty the dispositions are restored and the saved table cleared, and the alternate stack, its record and the mapped regions change exactly as `RestoreSigaltstack` changes them. Otherwise the stack, its record, the mapped regions and the dispositions are unchanged |
| SynthElf.HoldsExtend | synth-elf/src/lib.rs:38-42 | appending to the string table keeps every stored string where it was |
| SynthElf.CStringAt | synth-elf/src/lib.rs:38-42 | the string a reader finds at an offset has no NUL byte |
| SynthElf.HoldsReadBack | synth-elf/src/lib.rs:38-42 | a NUL-free string stored at an offset with its terminator is read back from that offset |
| SynthElf.StringTable.WithEndian | synth-elf/src/lib.rs:21-30 | a new table starts at offset 0 and holds only the empty string, at offset 0 |
| SynthElf.StringTable.Add | synth-elf/src/lib.rs:32-46 | a string added before returns its old offset and leaves the table alone. A new string is appended with a NUL terminator at the table's end, and that offset is returned and remembered. Either way the string is stored at the returned offset |
| SynthElf.NameReadBack | synth-elf/src/lib.rs:32-46 | reading the table at the offset `add` returned gives the string back, so distinct NUL-free strings get distinct offsets |
| SynthElf.ClassByte | synth-elf/src/lib.rs:69-74 | `ELFCLASS64` exactly for 64-bit files and `ELFCLASS32` exactly for 32-bit ones |
| SynthElf.AddrSize | synth-elf/src/lib.rs:76-81 | an address word is 8 bytes exactly for 64-bit files and 4 for 32-bit ones |
| SynthElf.Word | synth-elf/src/lib.rs:104-148 | a value written into an address word is cut to the word's width, and a value that fits is written as it is |
| SynthElf.Ident | synth-elf/src/lib.rs:179-198 | `e_ident` is the ELF magic, the class byte, the data-encoding byte, `EV_CURRENT` and `ELFOSABI_NONE`, zero-padded to 16 bytes |
| SynthElf.IdentReadBack | synth-elf/src/lib.rs:176-254 | a file that starts with this identification and holds a whole header is read back by `MappedElf::read` as an ELF file of the same class |
| SynthElf.SegmentFileSize | synth-elf/src/lib.rs:347-361 | a segment's file size is a multiple of four that covers each of its sections with contents, with less than four bytes of rounding per section |
| SynthElf.SegmentMemSize | synth-elf/src/lib.rs:347-361 | a segment's memory size is its file size plus the sizes of its `SHT_NOBITS` sections |
| SynthElf.PadLenAligns | synth-elf/src/lib.rs:428 | `align(4)` appends fewer than four bytes and ends on a multiple of four |
| SynthElf.PadLenLeast | synth-elf/src/lib.rs:428 | no shorter padding would end on a multiple of four |
| SynthElf.PadLenShift | synth-elf/src/lib.rs:428 | after a four-aligned prefix, `align(4)` pads as if the prefix were not there |
| SynthElf.PaddedAligned | synth-elf/src/lib.rs:428 | a section's contents padded with zeros take a multiple of four bytes |
| SynthElf.AppendedAligned | synth-elf/src/lib.rs:426-428 | when the file so far is four-aligned, what `finish` appends for a section is its contents padded to a multiple of four |
| SynthElf.Offsets | synth-elf/src/lib.rs:417-430 | one offset per section |
| SynthElf.WithinPrefix | synth-elf/src/lib.rs:426-428 | bytes already written stay where they are as more are appended |
| SynthElf.BodyGrows | synth-elf/src/lib.rs:418-430 | writing more sections only appends to what was written |
| SynthElf.SectionPlacedIn | synth-elf/src/lib.rs:418-430 | the placeholder gets offset 0 and an `SHT_NOBITS` section the offset its attributes name, cut to 32 bits. Any other section's contents are found in the file at the offset its label resolves to |
| SynthElf.BodyAligned | synth-elf/src/lib.rs:426-428 | the bytes written for the sections so far always take a multiple of four bytes |
| SynthElf.ContentsWithinLater | synth-elf/src/lib.rs:418-430 | once written, a section's contents stay right after the sections before it however many sections follow |
| SynthElf.SectionAligned | synth-elf/src/lib.rs:426-428 | every section with contents starts four-aligned |
| SynthElf.SectionsOrdered | synth-elf/src/lib.rs:418-430 | the contents of the sections follow one another in section order without overlapping |
| SynthElf.LayOut | synth-elf/src/lib.rs:417-430 | the loop, which aligns the whole file after each section, computes the offsets and the bytes `Offsets` and `Body` describe |
| SynthElf.SectionHeaders | synth-elf/src/lib.rs:290-333 | one section header per section |
| SynthElf.SegmentHeaders | synth-elf/src/lib.rs:335-384 | one program header per segment |
| SynthElf.Shstrtab | synth-elf/src/lib.rs:392-406 | the corrected `.shstrtab` section holds the string table and its `sh_size` is the table's length |
| SynthElf.ShstrtabSizeMismatch | synth-elf/src/lib.rs:393 | as written, `sh_size` of `.shstrtab` is the file so far (52 or 64 bytes). For a file with no named sections the table holds 11 bytes, so a reader taking `sh_size` bytes runs past it |
| SynthElf.ShstrtabAsWritten | synth-elf/src/lib.rs:388-393 | as written, `.shstrtab` is the intended section except that `sh_size` is the file header's length, so `sh_size` matches the table only when the two lengths agree |
| SynthElf.Elf.New | synth-elf/src/lib.rs:176-254 | a new file has only the placeholder section, no segments, and a string table holding just the empty name |
| SynthElf.Elf.AddSection | synth-elf/src/lib.rs:258-260 | the same as `AddSectionWithAttrs` with default attributes. The string table stays well formed: a name already in it keeps its offset and leaves the table unchanged, and a new name is appended NUL-terminated at the table's old length, which becomes its offset. |
| SynthElf.Elf.AddSectionWithAttrs | synth-elf/src/lib.rs:265-333 | the name goes into the string table and the section is appended with that name's offset, its kind, attributes, address and offset cut to 32 bits, size and contents. Its index is returned. Segments are unchanged. The string table stays well formed: a name already in it keeps its offset and leaves the table unchanged, and a new name is appended NUL-terminated at the table's old length, which becomes its offset. |
| SynthElf.Elf.AddSegment | synth-elf/src/lib.rs:335-384 | the segment count is always raised. A range outside the sections, or a `start` that is no section, panics. Otherwise the segment records its first section's address, cut to 32 bits, and the file and memory sizes of `sections[start..end]` |
| SynthElf.Elf.Finish | synth-elf/src/lib.rs:387-441 | (corrected; see Findings) `e_shstrndx` is the section count before `.shstrtab` is added and `e_shnum` the count after. `.shstrtab` gets the table's length as `sh_size`, where the source gives the file header's. `e_phoff` is the file header size when there are segments and 0 otherwise. The section contents follow the headers as `Body` lays them out, and the section header table comes last, at `e_shoff`. The string table gains `.shstrtab` as `AddShstrtab` says |
| SynthElf.Elf.AddShstrtab | synth-elf/src/lib.rs:388-407 | (corrected; see Findings) `.shstrtab` is named and added as the last section, at the old section count, with `sh_size` the table's length where the source gives the file header's. The string table stays well formed: `.shstrtab`, when already in it, keeps its offset and leaves the table unchanged, and otherwise it is appended NUL-terminated at the table's old length, which becomes its offset. |
| SynthElf.FinishedLayout | synth-elf/src/lib.rs:409-438 | in a finished file every section with contents lies four-aligned after the headers, its bytes are at the offset its header gives, and the section header table starts four-aligned after all of them |
| SynthElf.ContentsStartAligned | synth-elf/src/lib.rs:409-415 | the headers before the section contents take a multiple of four bytes |

## Left out

- Kernel and file I/O are not executed but passed in as oracle values. This covers `mmap`/`munmap`, `ptrace`, `waitpid`, `sigaction`, `sigaltstack`, `tgkill`, `prctl`, `open`, `read`, `read_dir`, `set_len`, seek and write. What each call returned is a parameter of the operation that makes it. A seek followed by `write_all` is one success-or-failure result, and on failure the file is unchanged. A real `write_all` that fails part way leaves some bytes written, and a seek can fail on its own; neither is distinguished.
- The `dbg!` calls in `elf.rs` (lines 20 and 149) and `ptrace_dumper.rs` (lines 250 and 254) print their argument to stderr and return it; only the returned value is modelled.
- `get_page_size` (a `Once` around `sysconf`) is a constant field of the allocator and the writer. It is a plain parameter elsewhere.
- Only the 64-bit little-endian target is modelled. Word sizes, `usize::MAX` and `to_ne_bytes` follow it. `RawVec.AllocGuard` alone also covers narrower pointer widths.
- Struct reads through `transmute` or pointer casts (auxv entries, ELF headers, program and section headers) are modelled as little-endian integer fields at their offsets. Struct-to-bytes writes of minidump items are modelled as byte strings of the item's size.
- The `parking_lot` mutexes, the `Weak`/`Arc` upgrades of the handler registry, and the `Rc<RefCell>` around the allocator are left out. Their state is plain sequential state: the registry is a list of ids plus the set of live ones.
- The `Allocator` handle that wraps a `PageAllocator` in `Rc<RefCell>` is not modelled separately. Its methods forward to the allocator's.
- These `PageVec` operations are not modelled: `with_capacity_in`, `from_raw_parts_in`, `into_raw_parts`, `reserve_exact`, `shrink_to_fit`, `append`, `resize_with`, `extend_from_slice`, `dedup_by_key`, `spare_capacity_mut`, and the `Clone`, `Hash`, `Eq`, `Ord` and slice-view trait glue. They are views or delegations to the modelled operations.
- PageAlloc.PageAllocator.AllocRaw: requires `size + header + page - 1` to fit `usize`. The source does not check this: it panics in a debug build and wraps in a release build. Every caller meets the bound through `Layout`'s `isize::MAX` limit.
- PageAlloc.PageAllocator.Alloc: requires the same `usize` bound as `AllocRaw`, which `Layout` guarantees in the source.
- PageAllocLegacy.PageAllocator.Alloc: requires the same `usize` bound as the newer `AllocRaw`, unchecked in the source.
- RawVec.RawVec.WithCapacityIn: requires the layout to fit and the allocation to succeed. The source panics on a layout overflow and aborts through `handle_alloc_error` on a failed allocation, and neither path is modelled.
- Dumper.PTraceDumper.ReadAuxv: resizes the table to the corrected 34 slots (`Dumper.AuxvHoldsEveryKind`); the 33-slot table as written is `Dumper.AuxvAsWrittenMissesVdso`, and `Dumper.PTraceDumper.EnumerateMappings` relies on the corrected length.
- PageVec.PageVec.Reserve: returns the `TryReserveError`, where the source's `reserve` panics or aborts through `handle_reserve`.
- PageVec.PageVec.Push: returns the `TryReserveError` of a failed grow instead of panicking.
- PageVec.PageVec.Insert: returns the `TryReserveError` of a failed grow instead of panicking.
- PageVec.PageVec.ExtendWith: returns the `TryReserveError` of a failed grow instead of panicking.
- PageVec.PageVec.Resize: returns the `TryReserveError` of a failed grow instead of panicking.
- PageVec.PageVec.ExtendDesugared: returns the `TryReserveError` of a failed grow instead of panicking.
- Panics on caller errors are preconditions. This covers `insert` past the length, `remove`/`swap_remove` out of range, and `shrink` above the capacity. Panics on data are `Err` results: slicing past a line or an image, and `unwrap` in `from_mapped_file`.
- Mapping.ParseMapping: a line is taken as a string of characters and the 255 limit of the `FixedStr<255>` name counts characters, so it equals the source's byte count only for ASCII paths. A path with multi-byte UTF-8 characters that is at most 255 characters but more than 255 bytes is accepted here and rejected by the source; byte-offset slicing inside a multi-byte character, which panics in the source, does not arise.
- Mapping.ParseMapping: the size is the release-build wrapping `end - start`. A debug build panics when the end lies below the start.
- Mapping.ParseMapping: the path search starts at index `offset_end`, the offset field's length, used as an index into the whole line, as written. For lines laid out as proc(5) describes, this still finds the path (`Mapping.ParseMapsLine`).
- Mapping.ParseMapsLine: the three literal lines of the `parses_maps` test (ptrace_dumper.rs 828-895) are instances of this lemma. They are not instantiated with their literal digits.
- ElfFile.FromMappedFile: the test fixtures that expect exact note bytes for 4-, 20- and 32-byte ids are covered by `Elf.BuildIdOfNotes` for every note list, not instantiated. The `unique_hashes` test compares hashes of two concrete `.text` sections and is not instantiated.
- `get_thread_info`, `late_init`, `generate_dump`, `perform_dump`, `thread_entry` and `CrashContext` copy registers or run the dump in a cloned child. They are not part of this model. `HandleSignal` takes whether the dump was written as a parameter.
- Handler.Dispatcher.InstallSigaltstack: the assertions on `sigaltstack`, `mprotect` and `munmap` are taken to succeed, and the protection of each page (`PROT_NONE` guard, read-write stack) is not modelled, only which addresses are mapped.
- Handler.Dispatcher.InstallSigaltstack: keeps the previous stack under the corrected rule (`Handler.Kept`); the code as written keeps it only when disabled, which `Handler.KeptAsWritten` and `Handler.RestoreLosesSmallStack` model.
- Handler.Dispatcher.Attach: installs the alternate stack under the corrected rule, as `Handler.Dispatcher.InstallSigaltstack` does; the as-written rule is `Handler.KeptAsWritten`.
- Handler.Dispatcher.RestoreSigaltstack: the `munmap` result is not checked (a `debug_assert` in the source). The model releases the stack's own addresses, as the source does, so the guard page stays mapped (`Handler.GuardPageStaysMapped`).
- Handler.Dispatcher.SignalHandlerEntry: `install_default_handler` is taken to succeed. The Android raw `rt_sigaction` path is the same disposition change.
- `ExceptionHandler::simulate_signal` only calls `handle_signal` with a self-sent `SI_USER` signal. That case is `Handler.Dispatcher.HandleSignal` with `siCode` 0 and the own pid.
- SynthElf.Elf.Finish: builds `.shstrtab` with the corrected `sh_size` (`SynthElf.Shstrtab`); the code as written uses the file header's length, which `SynthElf.ShstrtabAsWritten` and `SynthElf.ShstrtabSizeMismatch` model.
- SynthElf.Elf.AddShstrtab: adds the corrected `SynthElf.Shstrtab`; the as-written section is `SynthElf.ShstrtabAsWritten`.
- SynthElf.Elf.Finish: headers are records of resolved field values, not bytes in the chosen endianness. The label fields (`sh_name`, `e_shstrndx`, `e_shnum`, `e_phnum`) are not truncated to 16 or 32 bits.
- SynthElf.LayOut: requires the section contents to start four-aligned, which `finish` always gives (`ContentsStartAligned`).
- SynthElf.BodyUpTo: pads each section relative to its own length rather than to the file; the two agree because the contents start four-aligned (`AppendedAligned`, `ContentsStartAligned`).
- SynthElf.Elf.AddSegment: the `debug_assert` that no section with contents follows an `SHT_NOBITS` one is not checked. After a panic, the state is only the raised segment count the source leaves behind.
- SynthElf.StringTable.Add: strings are byte strings. UTF-8 validity of `String` is not modelled.
- The `test_assembler` `Section`/`Label` machinery is modelled by its effect: bytes appended and labels resolved at `finish`. The `Notes`, `SymbolTable` and `StInfo` tests use code that is not part of this model.
- The tests that pass `(text, bss)` or `(index, index)` to `add_segment` expect inclusive ranges, which the half-open range in the code does not give. Those expectations are not stated as properties.
- `DirReader::next` (the `getdents` loop) is directory I/O. Its entries are the oracle input of `Dumper.DirThreads`.
- Dumper.PTraceDumper.SuspendThreads: uses the intended `waitpid` retry (`Dumper.WaitLoop`), which calls again on `EINTR` and gives up on other errors. As written, the loop gives up on `EINTR` and calls again on any other error, so a lasting error such as `ECHILD` never ends it (`Dumper.WaitLoopAsWritten`, `Dumper.WaitAsWrittenSpins`). Outcomes that run out while the intended loop is still going count as a failed suspend.
- Dumper.SuspendThread: the `PTRACE_ATTACH` test (`ptrace` non-zero with a non-zero `errno`) is one success flag, and the x86 `PTRACE_GETREGS` check is the 64-bit one on `rsp`.
- Dumper.PTraceDumper.SanitizeStack: runs the corrected word loop, which moves past every word. The source's loop moves only past overwritten words and spins on a kept one; that loop is `Sanitize.SweepAsWritten`, and `Sanitize.ZeroWordStackSpins` exhibits the spin.
- Sanitize.SanitizeWord: is one pass of the corrected loop; the as-written pass is `Sanitize.SweepStepAsWritten`, repeated by `Sanitize.SweepAsWritten`, and `Sanitize.ZeroWordStackSpins` shows it never ends on a zero word.
- Mapping.ContainsAddress: `start + size` is an unbounded sum. The source adds in wrapping `usize` (release build) or panics (debug build). The two differ only for a mapping whose size wrapped because its end lies below its start (see `Mapping.ParseMapping`); for every other parsed or merged mapping the sum is its end address, which fits `usize`. The same holds for the sums in `Dumper.Mergeable`, `Dumper.EntryFirst` and `Sanitize.HitBitmap`.
- Sanitize.Decide: has no contract of its own; what it decides is stated by `Sanitize.DecideSpec`, which cites the same lines.
- The sentry integration, the transports, the C++ breakpad binding, the FFI wrapper and the examples are outside this core.

## Findings

| source | as written | input that shows it | evidently intended | confidence | as-written member | corrected member |
|---|---|---|---|---|---|---|
| breakpad-handler/src/linux/ptrace_dumper.rs:350-412 | `read_auxv` resizes the table to `SysInfoEhdr as usize` (33) slots, then stores and reads index `SysInfoEhdr` (33) | an auxv file holding an `AT_SYSINFO_EHDR` entry: storing it indexes slot 33 of a 33-slot table and panics, and so does `enumerate_mappings` reading that slot | a table with a slot for every kind, 34 slots | not executed | Dumper.AuxvAsWrittenMissesVdso | Dumper.AuxvHoldsEveryKind |
| breakpad-handler/src/linux/ptrace_dumper.rs:689 | `get_stack_info` takes `min(size - stack_ptr - start, 32 KiB)` in wrapping `usize` arithmetic | a 0x21000-byte stack at 0x7ff000000000 and stack pointer 0x7ff000020010: the window is 0x8000 bytes, running 0x7000 bytes past the mapping | `min(start + size - stack_ptr, 32 KiB)`, the rest of the mapping above the rounded pointer | not executed | Dumper.StackInfoOverruns | Dumper.StackInfoInside |
| breakpad-handler/src/linux/ptrace_dumper.rs:698-725 | `copy_from_process` passes `&mut word` to `ptrace(PTRACE_PEEKDATA)`, but the libc wrapper returns the peeked word and does not write through that argument, so `word` stays 0 | any process memory whose first byte is not 0: the copy is all zeros | use the word `ptrace` returns, zero only when the peek fails | not executed | Dumper.CopyAsWrittenLosesMemory | Dumper.CopyFromProcess |
| breakpad-handler/src/linux/ptrace_dumper.rs:783-808 | in `sanitize_stack`, every `continue` that keeps a word leaves `sp` where it was, so the loop re-reads the same word forever | an 8-byte stack holding the word 0 (a small integer): the loop never terminates | advance `sp` past every word, kept or overwritten | not executed | Sanitize.ZeroWordStackSpins | Sanitize.SanitizeStackBytes |
| breakpad-handler/src/linux/handler.rs:89-92 | `install_sigaltstack` saves the previous alternate stack only when it was disabled (`ss_flags & SS_DISABLE != 0`) | an enabled 8 KiB alternate stack: it is replaced, and on restore the process is left with no alternate stack instead of it | save the previous stack when it was enabled, as the C++ breakpad handler does | not executed | Handler.RestoreLosesSmallStack | Handler.RestoreGivesBackStack |
| synth-elf/src/lib.rs:392-393 | `finish` gives `.shstrtab` the `sh_size` `self.section.size()`, the length of the file built so far, which is just the file header | a file with no named sections: the table holds 11 bytes but `sh_size` says 52 (32-bit) or 64 (64-bit) | `sh_size` is the length of the section header string table | not executed | SynthElf.ShstrtabSizeMismatch | SynthElf.Shstrtab |
| breakpad-handler/src/linux/ptrace_dumper.rs:514-524 | in `suspend_thread`, the `waitpid` loop detaches and gives up when `errno` is `EINTR`, and calls `waitpid` again on any other error | a thread for which `waitpid` keeps failing with `ECHILD`: the loop never ends; an interrupted wait followed by a successful one drops a thread that could have been suspended | call again on `EINTR`, detach and give up on any other error, as the C++ breakpad dumper does | not executed | Dumper.WaitAsWrittenSpins | Dumper.WaitLoopStops |
