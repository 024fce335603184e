/**
 * `MappedElf`: an ELF image mapped in memory, read through its file header,
 * its section header table and its program header table, and the lookup of
 * a module's identifier in it (`ElfId::from_mapped_file`): the first
 * build-id note of a `PT_NOTE` segment, else the `.note.gnu.build-id`
 * section, else an XOR fold of the first page of `.text`.
 *
 * Field offsets follow the System V gABI, chapter 4 ("ELF Header",
 * "Sections") and chapter 5 ("Program Header"), read little-endian.
 */
module ElfFile {
  import opened Wrappers
  import opened LittleEndian
  import opened Elf

  const ELFMAG: seq<u8> := [0x7f, 0x45, 0x4c, 0x46]
  const ELFCLASS32: u8 := 1
  const ELFCLASS64: u8 := 2
  const PT_NOTE: nat := 4
  const SHT_PROGBITS: nat := 1
  const SHT_NOTE: nat := 7

  /** ".text" */
  const TEXT: seq<u8> := [0x2e, 0x74, 0x65, 0x78, 0x74]
  /** ".note.gnu.build-id" */
  const BUILD_ID_SECTION: seq<u8> :=
    [0x2e, 0x6e, 0x6f, 0x74, 0x65, 0x2e, 0x67, 0x6e, 0x75, 0x2e, 0x62, 0x75, 0x69, 0x6c, 0x64, 0x2d, 0x69, 0x64]

  /** Sizes of the file header, of a section header and of a program header. */
  function EhdrSize(is64: bool): nat { if is64 then 64 else 52 }
  function ShdrSize(is64: bool): nat { if is64 then 64 else 40 }
  function PhdrSize(is64: bool): nat { if is64 then 56 else 32 }

  /** The fields of the file header the lookup uses. */
  datatype Header = Header(is64: bool, phoff: nat, phnum: nat, shoff: nat, shnum: nat, shstrndx: nat)

  /** The header fields are read as 2-byte counts and 4- or 8-byte offsets. */
  lemma HeaderFieldsBound(data: seq<u8>, is64: bool)
    requires EhdrSize(is64) <= |data|
    ensures is64 ==> && LeAt(data, 32, 8) < Pow256(8) && LeAt(data, 40, 8) < Pow256(8)
                     && LeAt(data, 56, 2) < 0x1_0000 && LeAt(data, 60, 2) < 0x1_0000 && LeAt(data, 62, 2) < 0x1_0000
    ensures !is64 ==> && LeAt(data, 28, 4) < Pow256(4) && LeAt(data, 32, 4) < Pow256(4)
                      && LeAt(data, 44, 2) < 0x1_0000 && LeAt(data, 48, 2) < 0x1_0000 && LeAt(data, 50, 2) < 0x1_0000
  {
    assert Pow256(2) == 0x1_0000;
    if is64 {
      LeAtBound(data, 32, 8); LeAtBound(data, 40, 8);
      LeAtBound(data, 56, 2); LeAtBound(data, 60, 2); LeAtBound(data, 62, 2);
    } else {
      LeAtBound(data, 28, 4); LeAtBound(data, 32, 4);
      LeAtBound(data, 44, 2); LeAtBound(data, 48, 2); LeAtBound(data, 50, 2);
    }
  }

  /** `parse_header`: the fields of the file header of either class. */
  function HeaderOf(data: seq<u8>, is64: bool): (r: Header)
    requires EhdrSize(is64) <= |data|
    ensures r.is64 == is64
    ensures r.phnum < 0x1_0000 && r.shnum < 0x1_0000 && r.shstrndx < 0x1_0000
    ensures r.phoff < Pow256(if is64 then 8 else 4) && r.shoff < Pow256(if is64 then 8 else 4)
  {
    HeaderFieldsBound(data, is64);

    if is64 then Header(true, LeAt(data, 32, 8), LeAt(data, 56, 2), LeAt(data, 40, 8), LeAt(data, 60, 2), LeAt(data, 62, 2))
    else Header(false, LeAt(data, 28, 4), LeAt(data, 44, 2), LeAt(data, 32, 4), LeAt(data, 48, 2), LeAt(data, 50, 2))
  }

  datatype MappedElf = MappedElf(data: seq<u8>, header: Header)

  /** An ELF image of either class with a whole file header. */
  predicate IsElf(data: seq<u8>) {
    && 4 < |data|
    && data[..4] == ELFMAG
    && (data[4] == ELFCLASS32 || data[4] == ELFCLASS64)
    && EhdrSize(data[4] == ELFCLASS64) <= |data|
  }

  /**
   * `MappedElf::read`: fewer than four bytes panic on the magic check;
   * anything that is not an ELF image of a known class with a whole file
   * header is refused.
   */
  function Read(data: seq<u8>): (r: Result<Option<MappedElf>, Fault>)
    ensures r.Err? <==> |data| < 4
    ensures r.Ok? ==> (r.value.Some? <==> IsElf(data))
    ensures r.Ok? && r.value.Some? ==> r.value.value == MappedElf(data, HeaderOf(data, data[4] == ELFCLASS64))
  {
    if |data| < 4 then Err(Panic)
    else if data[..4] != ELFMAG || |data| <= 4 then Ok(None)
    else if data[4] == ELFCLASS32 then
      if |data| < EhdrSize(false) then Ok(None) else Ok(Some(MappedElf(data, HeaderOf(data, false))))
    else if data[4] == ELFCLASS64 then
      if |data| < EhdrSize(true) then Ok(None) else Ok(Some(MappedElf(data, HeaderOf(data, true))))
    else Ok(None)
  }

  /** `&data[offset..offset + size]`, which panics when out of range. */
  function SliceOf(data: seq<u8>, offset: nat, size: nat): (r: Result<seq<u8>, Fault>)
    ensures r.Ok? <==> offset + size <= |data|
    ensures r.Ok? ==> |r.value| == size && forall k :: 0 <= k < size ==> r.value[k] == data[offset + k]
  {
    if offset + size <= |data| then Ok(data[offset..offset + size]) else Err(Panic)
  }

  /** Entry `i` of a table of `n` entries of `size` bytes lies inside it. */
  lemma TableEntry(i: nat, n: nat, size: nat)
    requires i < n
    ensures i * size + size <= n * size
  {
    assert i * size + size == (i + 1) * size;
    assert (i + 1) * size <= n * size;
  }

  // ------------------------------------------------------------ sections

  datatype SectionHeader = SectionHeader(name: nat, kind: nat, offset: nat, size: nat)

  function SectionHeaderAt(data: seq<u8>, is64: bool, at: nat): SectionHeader
    requires at + ShdrSize(is64) <= |data|
  {
    if is64 then SectionHeader(LeAt(data, at, 4), LeAt(data, at + 4, 4), LeAt(data, at + 24, 8), LeAt(data, at + 32, 8))
    else SectionHeader(LeAt(data, at, 4), LeAt(data, at + 4, 4), LeAt(data, at + 16, 4), LeAt(data, at + 20, 4))
  }

  /** The section header table lies inside the image. */
  predicate SectionTableInBounds(m: MappedElf) {
    m.header.shoff + m.header.shnum * ShdrSize(m.header.is64) <= |m.data|
  }

  /** `section_headers`: the table of `e_shnum` entries at `e_shoff`. */
  function SectionHeaders(m: MappedElf): (r: seq<SectionHeader>)
    requires SectionTableInBounds(m)
    ensures |r| == m.header.shnum
  {
    var size := ShdrSize(m.header.is64);
    seq(m.header.shnum, i requires 0 <= i < m.header.shnum =>
      TableEntry(i, m.header.shnum, size);
      SectionHeaderAt(m.data, m.header.is64, m.header.shoff + i * size))
  }

  /** The section name string table, `section_headers[e_shstrndx]`'s bytes. */
  function Names(m: MappedElf, headers: seq<SectionHeader>): (r: Result<seq<u8>, Fault>)
    ensures r.Err? ==> r.error == Panic
  {
    if m.header.shstrndx >= |headers| then Err(Panic)
    else
      var strtab := headers[m.header.shstrndx];
      SliceOf(m.data, strtab.offset, strtab.size)
  }

  /** Section header `sh` is of type `kind` and its name in `names` starts with the bytes of `name`. */
  predicate NameMatches(names: seq<u8>, sh: SectionHeader, name: seq<u8>, kind: nat) {
    sh.name + |name| <= |names| && sh.kind == kind && names[sh.name..sh.name + |name|] == name
  }

  /**
   * What a section lookup or the segment iterator gives for a header once it
   * matched: the `size` bytes at `offset`, or a panic when they are out of
   * range; never nothing.
   */
  function FoundBytes(data: seq<u8>, offset: nat, size: nat): (r: Result<Option<seq<u8>>, Fault>)
    ensures r != Ok(None)
    ensures r.Err? <==> |data| < offset + size
  {
    match SliceOf(data, offset, size)
    case Ok(d) => Ok(Some(d))
    case Err(e) => Err(e)
  }

  /** The scan of the section headers from entry `i` on. */
  function FindFrom(data: seq<u8>, headers: seq<SectionHeader>, names: seq<u8>, name: seq<u8>, kind: nat, i: nat): Result<Option<seq<u8>>, Fault>
    requires i <= |headers|
    decreases |headers| - i
  {
    if i == |headers| then Ok(None)
    else if NameMatches(names, headers[i], name, kind) then FoundBytes(data, headers[i].offset, headers[i].size)
    else FindFrom(data, headers, names, name, kind, i + 1)
  }

  /**
   * `find_section_by_name`: no section header table means no section; a
   * table past the end of the image is read out of bounds; a string table
   * index or a string table out of range panics.
   */
  function SectionNamed(m: MappedElf, name: seq<u8>, kind: nat): (r: Result<Option<seq<u8>>, Fault>)
    ensures m.header.shoff == 0 ==> r == Ok(None)
    ensures m.header.shoff != 0 && !SectionTableInBounds(m) ==> r == Err(OutOfBounds)
    ensures r.Ok? && r.value.Some? ==> m.header.shoff != 0 && SectionTableInBounds(m)
  {
    if m.header.shoff == 0 then Ok(None)
    else if !SectionTableInBounds(m) then Err(OutOfBounds)
    else
      var headers := SectionHeaders(m);
      match Names(m, headers)
      case Err(e) => Err(e)
      case Ok(names) => FindFrom(m.data, headers, names, name, kind, 0)
  }

  /**
   * The scan finds the first section of the type whose name starts with `name`, and
   * finds nothing exactly when there is none.
   */
  lemma {:induction false} FindFromFirstMatch(data: seq<u8>, headers: seq<SectionHeader>, names: seq<u8>, name: seq<u8>, kind: nat, i: nat)
    requires i <= |headers|
    ensures FindFrom(data, headers, names, name, kind, i) == Ok(None)
            <==> forall j :: i <= j < |headers| ==> !NameMatches(names, headers[j], name, kind)
    ensures FindFrom(data, headers, names, name, kind, i) != Ok(None) ==>
              exists j :: i <= j < |headers|
                && NameMatches(names, headers[j], name, kind)
                && (forall k :: i <= k < j ==> !NameMatches(names, headers[k], name, kind))
                && FindFrom(data, headers, names, name, kind, i) == FoundBytes(data, headers[j].offset, headers[j].size)
    decreases |headers| - i
  {
    if i < |headers| && !NameMatches(names, headers[i], name, kind) {
      FindFromFirstMatch(data, headers, names, name, kind, i + 1);
      if FindFrom(data, headers, names, name, kind, i) != Ok(None) {
        var j :| i + 1 <= j < |headers|
                && NameMatches(names, headers[j], name, kind)
                && (forall k :: i + 1 <= k < j ==> !NameMatches(names, headers[k], name, kind))
                && FindFrom(data, headers, names, name, kind, i + 1) == FoundBytes(data, headers[j].offset, headers[j].size);
        assert forall k :: i <= k < j ==> !NameMatches(names, headers[k], name, kind);
      }
    }
  }

  /** `find_section_by_name`, the loop over the section headers. */
  method FindSectionByName(m: MappedElf, name: seq<u8>, kind: nat) returns (r: Result<Option<seq<u8>>, Fault>)
    ensures r == SectionNamed(m, name, kind)
  {
    if m.header.shoff == 0 {
      return Ok(None);
    }
    if !SectionTableInBounds(m) {
      return Err(OutOfBounds);
    }
    var headers := SectionHeaders(m);
    var names := Names(m, headers);
    if names.Err? {
      return Err(names.error);
    }
    var i := 0;
    while i < |headers|
      invariant i <= |headers|
      invariant FindFrom(m.data, headers, names.value, name, kind, i) == SectionNamed(m, name, kind)
    {
      var sh := headers[i];
      if sh.name + |name| <= |names.value| {
        if sh.kind == kind && names.value[sh.name..sh.name + |name|] == name {
          return FoundBytes(m.data, sh.offset, sh.size);
        }
      }
      i := i + 1;
    }
    return Ok(None);
  }

  // ------------------------------------------------------------ segments

  datatype ProgramHeader = ProgramHeader(kind: nat, offset: nat, size: nat)

  function ProgramHeaderAt(table: seq<u8>, is64: bool, at: nat): ProgramHeader
    requires at + PhdrSize(is64) <= |table|
  {
    if is64 then ProgramHeader(LeAt(table, at, 4), LeAt(table, at + 8, 8), LeAt(table, at + 32, 8))
    else ProgramHeader(LeAt(table, at, 4), LeAt(table, at + 4, 4), LeAt(table, at + 16, 4))
  }

  /** `iter_segments`: the program header table, `&data[e_phoff..e_phoff + size * e_phnum]`. */
  function SegmentTable(m: MappedElf): (r: Result<seq<u8>, Fault>)
    ensures r.Ok? ==> |r.value| == PhdrSize(m.header.is64) * m.header.phnum
  {
    SliceOf(m.data, m.header.phoff, PhdrSize(m.header.is64) * m.header.phnum)
  }

  /** `headers`: the `count` program headers of a table, decoded. */
  function ProgramHeaders(table: seq<u8>, is64: bool, count: nat): (r: seq<ProgramHeader>)
    requires |table| == PhdrSize(is64) * count
    ensures |r| == count
  {
    var size := PhdrSize(is64);
    seq(count, i requires 0 <= i < count =>
      TableEntry(i, count, size);
      ProgramHeaderAt(table, is64, i * size))
  }

  /** What the iteration looks at: the program headers, the image and the kind wanted. */
  datatype Segments = Segments(headers: seq<ProgramHeader>, data: seq<u8>, kind: nat)

  /**
   * `PHIter::next` from position `index`: the next segment of the kind and
   * the position past it. The position moves past a header before its
   * bytes are sliced, and a slice out of range panics.
   */
  function NextSegment(it: Segments, index: nat): (r: (Result<Option<seq<u8>>, Fault>, nat))
    ensures r.0 == Ok(None) ==> r.1 == if index < |it.headers| then |it.headers| else index
    ensures r.0 != Ok(None) ==> index < r.1 <= |it.headers|
    decreases |it.headers| - index
  {
    if index >= |it.headers| then (Ok(None), index)
    else
      var ph := it.headers[index];
      if ph.kind == it.kind then (FoundBytes(it.data, ph.offset, ph.size), index + 1)
      else NextSegment(it, index + 1)
  }

  /**
   * `next` yields the first program header of the kind at or after the
   * position, leaves the position just past it, and yields nothing exactly
   * when there is none.
   */
  lemma {:induction false} NextSegmentFirstMatch(it: Segments, index: nat)
    ensures NextSegment(it, index).0 == Ok(None) <==> forall j :: index <= j < |it.headers| ==> it.headers[j].kind != it.kind
    ensures NextSegment(it, index).0 != Ok(None) ==>
              var j := NextSegment(it, index).1 - 1;
              && index <= j
              && it.headers[j].kind == it.kind
              && (forall k :: index <= k < j ==> it.headers[k].kind != it.kind)
              && NextSegment(it, index).0 == FoundBytes(it.data, it.headers[j].offset, it.headers[j].size)
    decreases |it.headers| - index
  {
    if index < |it.headers| && it.headers[index].kind != it.kind {
      NextSegmentFirstMatch(it, index + 1);
    }
  }

  /** `PHIter`: the program headers of one kind, yielded one at a time. */
  class PHIter {
    const table: seq<u8>
    const data: seq<u8>
    const kind: nat
    const count: nat
    const is64: bool
    var index: nat

    predicate Valid() {
      |table| == PhdrSize(is64) * count
    }

    function State(): Segments
      requires Valid()
    {
      Segments(ProgramHeaders(table, is64, count), data, kind)
    }

    constructor (table: seq<u8>, data: seq<u8>, kind: nat, count: nat, is64: bool)
      requires |table| == PhdrSize(is64) * count
      ensures Valid() && this.table == table && this.data == data && this.kind == kind
      ensures this.count == count && this.is64 == is64 && index == 0
    {
      this.table, this.data, this.kind, this.count, this.is64 := table, data, kind, count, is64;
      index := 0;
    }

    /** `next`: the loop over the headers from the current position. */
    method Next() returns (r: Result<Option<seq<u8>>, Fault>)
      requires Valid()
      modifies this
      ensures (r, index) == NextSegment(State(), old(index))
    {
      var headers := ProgramHeaders(table, is64, count);
      while true
        invariant NextSegment(State(), index) == NextSegment(State(), old(index))
        decreases count - index
      {
        if index >= |headers| {
          return Ok(None);
        }
        var ph := headers[index];
        if ph.kind == kind {
          index := index + 1;
          return FoundBytes(data, ph.offset, ph.size);
        }
        index := index + 1;
      }
    }
  }

  /** The iteration `iter_segments` sets up over a program header table. */
  function NoteSearch(m: MappedElf, table: seq<u8>, kind: nat): Segments
    requires |table| == PhdrSize(m.header.is64) * m.header.phnum
  {
    Segments(ProgramHeaders(table, m.header.is64, m.header.phnum), m.data, kind)
  }

  /** `iter_segments`: an iterator over the program headers of `kind`; the table slice out of range panics. */
  method IterSegments(m: MappedElf, kind: nat) returns (r: Result<PHIter, Fault>)
    ensures r.Err? <==> SegmentTable(m).Err?
    ensures r.Err? ==> r.error == Panic
    ensures r.Ok? ==> fresh(r.value) && r.value.index == 0 && r.value.Valid()
                      && r.value.State() == NoteSearch(m, SegmentTable(m).value, kind)
  {
    var table := SegmentTable(m);
    if table.Err? {
      return Err(Panic);
    }
    var it := new PHIter(table.value, m.data, kind, m.header.phnum, m.header.is64);
    return Ok(it);
  }

  // ------------------------------------------------------------ text hash

  const CHUNK: nat := 16
  const PAGE: nat := 4096

  function Xor(a: u8, b: u8): u8 {
    ((a as bv8) ^ (b as bv8)) as u8
  }

  /** The bytes the hash reads: the first 4 KiB of `.text`. */
  function FirstPage(text: seq<u8>): (r: seq<u8>)
    ensures |r| <= PAGE && |r| <= |text| && r == text[..|r|]
  {
    text[..Min(|text|, PAGE)]
  }

  /** Byte `k` of each of the first `n` whole chunks of `page`, folded by XOR. */
  function ColumnXor(page: seq<u8>, k: nat, n: nat): u8
    requires k < CHUNK && CHUNK * n <= |page|
  {
    if n == 0 then 0 else Xor(ColumnXor(page, k, n - 1), page[CHUNK * (n - 1) + k])
  }

  /** `hash_text_section`'s fold: the whole 16-byte chunks of the first page XORed together. */
  function TextHash(text: seq<u8>): (r: seq<u8>)
    ensures |r| == CHUNK
  {
    var page := FirstPage(text);
    seq(CHUNK, k requires 0 <= k < CHUNK => ColumnXor(page, k, |page| / CHUNK))
  }

  /** The fold reads only the first `n` chunks. */
  lemma {:induction false} ColumnXorPrefix(page: seq<u8>, other: seq<u8>, k: nat, n: nat)
    requires k < CHUNK && CHUNK * n <= |page| && CHUNK * n <= |other|
    requires page[..CHUNK * n] == other[..CHUNK * n]
    ensures ColumnXor(page, k, n) == ColumnXor(other, k, n)
  {
    if n > 0 {
      assert page[..CHUNK * (n - 1)] == page[..CHUNK * n][..CHUNK * (n - 1)];
      assert other[..CHUNK * (n - 1)] == other[..CHUNK * n][..CHUNK * (n - 1)];
      ColumnXorPrefix(page, other, k, n - 1);
      assert page[CHUNK * (n - 1) + k] == page[..CHUNK * n][CHUNK * (n - 1) + k];
    }
  }

  /**
   * Only the whole chunks of the first page count: bytes past 4 KiB, and a
   * trailing partial chunk of a shorter `.text`, are disregarded.
   */
  lemma TextHashIgnoresTail(text: seq<u8>)
    ensures var page := FirstPage(text);
            TextHash(text) == TextHash(page[..CHUNK * (|page| / CHUNK)])
  {
    var page := FirstPage(text);
    var whole := page[..CHUNK * (|page| / CHUNK)];
    assert FirstPage(whole) == whole;
    forall k | 0 <= k < CHUNK
      ensures TextHash(text)[k] == TextHash(whole)[k]
    {
      assert whole[..CHUNK * (|page| / CHUNK)] == page[..CHUNK * (|page| / CHUNK)];
      ColumnXorPrefix(page, whole, k, |page| / CHUNK);
    }
  }

  /** The inner loop of `hash_text_section`: one chunk XORed into the identifier. */
  method XorChunk(identifier: array<u8>, chunk: seq<u8>)
    requires identifier.Length == |chunk|
    modifies identifier
    ensures forall k :: 0 <= k < |chunk| ==> identifier[k] == Xor(old(identifier[k]), chunk[k])
  {
    var k := 0;
    while k < |chunk|
      invariant k <= |chunk|
      invariant forall j :: 0 <= j < k ==> identifier[j] == Xor(old(identifier[j]), chunk[j])
      invariant forall j :: k <= j < |chunk| ==> identifier[j] == old(identifier[j])
    {
      identifier[k] := Xor(identifier[k], chunk[k]);
      k := k + 1;
    }
  }

  /** `hash_text_section`'s loop over `first_page.chunks_exact(16)`. */
  method FoldTextChunks(text: seq<u8>) returns (id: seq<u8>)
    ensures id == TextHash(text)
  {
    var identifier := new u8[CHUNK](_ => 0);
    var page := FirstPage(text);
    var chunks := |page| / CHUNK;
    var c := 0;
    while c < chunks
      invariant c <= chunks && CHUNK * c <= |page|
      invariant forall k :: 0 <= k < CHUNK ==> identifier[k] == ColumnXor(page, k, c)
    {
      ChunkFits(|page|, c);
      FoldChunk(identifier, page, c);
      c := c + 1;
    }
    AllChunksFit(|page|);
    id := identifier[..];
    TextHashOf(text, id);
  }

  /** Sixteen bytes, each the fold of its column over the whole chunks of the first page, are the text hash. */
  lemma TextHashOf(text: seq<u8>, id: seq<u8>)
    requires |id| == CHUNK
    requires forall k :: 0 <= k < CHUNK ==> id[k] == ColumnXor(FirstPage(text), k, |FirstPage(text)| / CHUNK)
    ensures id == TextHash(text)
  {
  }

  /** One step of the fold: chunk `c` of the page is XORed into the identifier. */
  method FoldChunk(identifier: array<u8>, page: seq<u8>, c: nat)
    requires identifier.Length == CHUNK && CHUNK * c + CHUNK <= |page|
    requires forall k :: 0 <= k < CHUNK ==> identifier[k] == ColumnXor(page, k, c)
    modifies identifier
    ensures forall k :: 0 <= k < CHUNK ==> identifier[k] == ColumnXor(page, k, c + 1)
  {
    var chunk := page[CHUNK * c..CHUNK * c + CHUNK];
    XorChunk(identifier, chunk);
    forall k | 0 <= k < CHUNK
      ensures identifier[k] == ColumnXor(page, k, c + 1)
    {
      ColumnXorStep(page, k, c);
    }
  }

  /** Chunk `c` of a page lies inside it when the page has more than `c` whole chunks. */
  lemma ChunkFits(len: nat, c: nat)
    requires c < len / CHUNK
    ensures CHUNK * c + CHUNK <= len && CHUNK * (c + 1) <= len
  {
  }

  /** The whole chunks of a page lie inside it. */
  lemma AllChunksFit(len: nat)
    ensures CHUNK * (len / CHUNK) <= len
  {
  }

  /** Folding one more chunk XORs in that chunk's byte `k`. */
  lemma ColumnXorStep(page: seq<u8>, k: nat, c: nat)
    requires k < CHUNK && CHUNK * c + CHUNK <= |page|
    ensures ColumnXor(page, k, c + 1) == Xor(ColumnXor(page, k, c), page[CHUNK * c..CHUNK * c + CHUNK][k])
  {
  }

  /** `hash_text_section`: the `.text` section must exist. */
  function TextId(m: MappedElf): (r: Result<Option<ElfId>, Fault>)
    ensures r.Err? <==> !(SectionNamed(m, TEXT, SHT_PROGBITS).Ok? && SectionNamed(m, TEXT, SHT_PROGBITS).value.Some?)
    ensures r.Ok? ==> r.value.Some? && ValidId(r.value.value)
  {
    match SectionNamed(m, TEXT, SHT_PROGBITS)
    case Err(e) => Err(e)
    case Ok(None) => Err(Panic)
    case Ok(Some(text)) => Ok(New(TextHash(text)))
  }

  method HashTextSection(m: MappedElf) returns (r: Result<Option<ElfId>, Fault>)
    ensures r == TextId(m)
  {
    var text := FindSectionByName(m, TEXT, SHT_PROGBITS);
    if text.Err? {
      return Err(text.error);
    }
    if text.value.None? {
      return Err(Panic);
    }
    var id := FoldTextChunks(text.value.value);
    return Ok(New(id));
  }

  // ------------------------------------------------------------ from_mapped_file

  /** After the segments: the build-id section, else the text hash. */
  function FromSections(m: MappedElf): (r: Result<Option<ElfId>, Fault>)
    ensures r.Ok? && r.value.Some? ==> ValidId(r.value.value)
    ensures r != TextId(m) ==>
              var s := SectionNamed(m, BUILD_ID_SECTION, SHT_NOTE);
              s.Err? || (s.value.Some? && BuildIdFrom(s.value.value, 0).Some? && r == Ok(BuildIdFrom(s.value.value, 0)))
  {
    match SectionNamed(m, BUILD_ID_SECTION, SHT_NOTE)
    case Err(e) => Err(e)
    case Ok(Some(sec)) =>
      if BuildIdFrom(sec, 0).Some? then Ok(BuildIdFrom(sec, 0)) else TextId(m)
    case Ok(None) => TextId(m)
  }

  /** The note segments from position `index` on, each searched for a build id. */
  function FromNoteSegments(m: MappedElf, it: Segments, index: nat): (r: Result<Option<ElfId>, Fault>)
    ensures r.Ok? && r.value.Some? ==> ValidId(r.value.value)
    decreases |it.headers| - index
  {
    match NextSegment(it, index).0
    case Err(e) => Err(e)
    case Ok(None) => FromSections(m)
    case Ok(Some(note)) =>
      if BuildIdFrom(note, 0).Some? then Ok(BuildIdFrom(note, 0))
      else FromNoteSegments(m, it, NextSegment(it, index).1)
  }

  /** `ElfId::from_mapped_file`: an image `read` refuses panics on `unwrap`. */
  function IdentifierOf(elf: seq<u8>): (r: Result<Option<ElfId>, Fault>)
    ensures !IsElf(elf) ==> r.Err?
    ensures r.Ok? && r.value.Some? ==> ValidId(r.value.value)
  {
    match Read(elf)
    case Err(e) => Err(e)
    case Ok(None) => Err(Panic)
    case Ok(Some(m)) =>
      match SegmentTable(m)
      case Err(e) => Err(e)
      case Ok(table) => FromNoteSegments(m, NoteSearch(m, table, PT_NOTE), 0)
  }

  /** The text hash always gives an identifier of 16 bytes. */
  lemma TextIdSome(m: MappedElf)
    ensures TextId(m).Ok? ==> TextId(m).value.Some? && |AsRef(TextId(m).value.value)| == CHUNK
  {
  }

  /** Once the build id search falls through to the hash, an answer is always an identifier. */
  lemma {:induction false} FromNoteSegmentsSome(m: MappedElf, it: Segments, index: nat)
    ensures FromNoteSegments(m, it, index).Ok? ==> FromNoteSegments(m, it, index).value.Some?
    decreases |it.headers| - index
  {
    TextIdSome(m);
    var next := NextSegment(it, index);
    if next.0.Ok? && next.0.value.Some? && BuildIdFrom(next.0.value.value, 0).None? {
      FromNoteSegmentsSome(m, it, next.1);
    }
  }

  /** `from_mapped_file` either panics or finds an identifier: it never answers `None`. */
  lemma IdentifierOfSome(elf: seq<u8>)
    ensures IdentifierOf(elf).Ok? ==> IdentifierOf(elf).value.Some?
  {
    var read := Read(elf);
    if read.Ok? && read.value.Some? {
      var m := read.value.value;
      var table := SegmentTable(m);
      if table.Ok? {
        FromNoteSegmentsSome(m, NoteSearch(m, table.value, PT_NOTE), 0);
      }
    }
  }

  /** `ElfId::from_mapped_file`: the note segments, the build-id section, then the text hash. */
  method FromMappedFile(elf: seq<u8>) returns (r: Result<Option<ElfId>, Fault>)
    ensures r == IdentifierOf(elf)
  {
    var read := Read(elf);
    if read.Err? {
      return Err(read.error);
    }
    if read.value.None? {
      return Err(Panic);
    }
    var m := read.value.value;
    var segments := IterSegments(m, PT_NOTE);
    if segments.Err? {
      return Err(segments.error);
    }
    var it := segments.value;
    while true
      invariant fresh(it) && it.Valid()
      invariant it.State() == NoteSearch(m, SegmentTable(m).value, PT_NOTE)
      invariant FromNoteSegments(m, it.State(), it.index) == IdentifierOf(elf)
      decreases it.count - it.index
    {
      var note := it.Next();
      if note.Err? {
        return Err(note.error);
      }
      if note.value.None? {
        break;
      }
      var id := BuildIdFromNote(note.value.value);
      if id.Some? {
        return Ok(id);
      }
    }
    var section := FindSectionByName(m, BUILD_ID_SECTION, SHT_NOTE);
    if section.Err? {
      return Err(section.error);
    }
    if section.value.Some? {
      var id := BuildIdFromNote(section.value.value);
      if id.Some? {
        return Ok(id);
      }
    }
    r := HashTextSection(m);
  }
}
