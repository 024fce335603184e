/**
 * The synthetic ELF builder used to make test binaries: a string table of
 * section names, the identification bytes and file header, sections added
 * one by one with their headers, segments spanning a range of sections,
 * and `finish`, which lays out the program headers, the section contents
 * and the section header table and resolves every offset.
 *
 * Header tables are modelled as records holding the values written into
 * each field (`Word` applies the width of the file class); their byte
 * encoding in either byte order is not modelled.
 */
module SynthElf {
  import opened Wrappers
  import opened PageVec
  import opened ElfId = Elf
  import ElfFile

  const SHT_NULL: nat := 0
  const SHT_STRTAB: nat := 3
  const SHT_NOBITS: nat := 8
  const ET_EXEC: nat := 2
  const EV_CURRENT: u8 := 1
  const ELFOSABI_NONE: u8 := 0
  const ELFDATA2LSB: u8 := 1
  const ELFDATA2MSB: u8 := 2
  const U32_MODULUS: nat := 0x1_0000_0000
  const U64_MODULUS: nat := 0x1_0000_0000_0000_0000

  /** The name of the section header string table, `.shstrtab`. */
  const SHSTRTAB: seq<u8> := [0x2e, 0x73, 0x68, 0x73, 0x74, 0x72, 0x74, 0x61, 0x62]

  // ------------------------------------------------------------ string table

  /** `s` is stored at `off`, followed by its NUL terminator. */
  predicate Holds(bytes: seq<u8>, s: seq<u8>, off: nat) {
    off + |s| < |bytes| && bytes[off..off + |s|] == s && bytes[off + |s|] == 0
  }

  predicate NoNul(s: seq<u8>) {
    forall k :: 0 <= k < |s| ==> s[k] != 0
  }

  /** Appending to the table keeps every stored string where it was. */
  lemma HoldsExtend(bytes: seq<u8>, ext: seq<u8>, s: seq<u8>, off: nat)
    requires Holds(bytes, s, off)
    ensures Holds(bytes + ext, s, off)
  {
    assert (bytes + ext)[off..off + |s|] == bytes[off..off + |s|];
  }

  /** The NUL-terminated string a reader of the table finds at `off`. */
  function CStringAt(bytes: seq<u8>, off: nat): (r: seq<u8>)
    ensures NoNul(r)
    decreases |bytes| - off
  {
    if off >= |bytes| || bytes[off] == 0 then [] else [bytes[off]] + CStringAt(bytes, off + 1)
  }

  /** A string without NUL bytes stored at `off` is read back from `off`. */
  lemma {:induction false} HoldsReadBack(bytes: seq<u8>, s: seq<u8>, off: nat)
    requires Holds(bytes, s, off) && NoNul(s)
    ensures CStringAt(bytes, off) == s
    decreases |s|
  {
    if |s| > 0 {
      assert bytes[off] == s[0];
      assert bytes[off + 1..off + 1 + |s[1..]|] == s[1..];
      HoldsReadBack(bytes, s[1..], off + 1);
    }
  }

  /**
   * `StringTable`: the bytes of the table, which start at offset 0, and the
   * offset at which each string added so far was stored.
   */
  class StringTable {
    var bytes: seq<u8>
    var labels: map<seq<u8>, nat>

    predicate Valid()
      reads this
    {
      && [] in labels && labels[[]] == 0
      && forall s :: s in labels ==> Holds(bytes, s, labels[s])
    }

    /** `StringTable::with_endian`: the table holds just the empty string, at offset 0. */
    constructor WithEndian()
      ensures Valid() && bytes == [0] && labels == map[[] := 0]
    {
      bytes := [0];
      labels := map[[] := 0];
    }

    /**
     * `StringTable::add`: a string added before gets its old offset and the
     * table is left alone; a new one is appended with a NUL terminator at
     * the end of the table and that offset is returned.
     */
    method Add(s: seq<u8>) returns (off: nat)
      requires Valid()
      modifies this
      ensures Valid() && s in labels && off == labels[s] && Holds(bytes, s, off)
      ensures s in old(labels) ==> off == old(labels)[s] && bytes == old(bytes) && labels == old(labels)
      ensures s !in old(labels) ==>
                && off == |old(bytes)|
                && bytes == old(bytes) + s + [0]
                && labels == old(labels)[s := off]
    {
      if s in labels {
        return labels[s];
      }
      off := |bytes|;
      var grown := bytes + s + [0];
      forall t | t in labels
        ensures Holds(grown, t, labels[t])
      {
        HoldsExtend(bytes, s + [0], t, labels[t]);
        assert grown == bytes + (s + [0]);
      }
      assert grown[off..off + |s|] == s;
      bytes := grown;
      labels := labels[s := off];
    }
  }

  /**
   * Reading the table at the offset `add` returned for a string without NUL
   * bytes gives that string back, so distinct such strings get distinct
   * offsets.
   */
  lemma NameReadBack(t: StringTable, s: seq<u8>, u: seq<u8>)
    requires t.Valid() && s in t.labels && u in t.labels && NoNul(s) && NoNul(u)
    ensures CStringAt(t.bytes, t.labels[s]) == s
    ensures t.labels[s] == t.labels[u] ==> s == u
  {
    HoldsReadBack(t.bytes, s, t.labels[s]);
    HoldsReadBack(t.bytes, u, t.labels[u]);
  }

  // ------------------------------------------------------------ file class

  datatype ElfClass = Class32 | Class64
  datatype Endian = Little | Big

  /** `ElfClass::class` */
  function ClassByte(c: ElfClass): (r: u8)
    ensures r == ElfFile.ELFCLASS64 <==> c.Class64?
    ensures r == ElfFile.ELFCLASS32 <==> c.Class32?
  {
    match c
    case Class32 => ElfFile.ELFCLASS32
    case Class64 => ElfFile.ELFCLASS64
  }

  /** `ElfClass::addr_size`: the width of an address word in bytes. */
  function AddrSize(c: ElfClass): (r: nat)
    ensures r == 8 <==> c.Class64?
    ensures r == 4 <==> c.Class32?
  {
    match c
    case Class32 => 4
    case Class64 => 8
  }

  /** A value written into an address-sized word of a file of class `c`. */
  function Word(c: ElfClass, x: nat): (r: nat)
    ensures r < (if c.Class64? then U64_MODULUS else U32_MODULUS)
    ensures x < (if c.Class64? then U64_MODULUS else U32_MODULUS) ==> r == x
  {
    if c.Class64? then x % U64_MODULUS else x % U32_MODULUS
  }

  function DataByte(e: Endian): u8 {
    match e
    case Little => ELFDATA2LSB
    case Big => ELFDATA2MSB
  }

  /** `e_ident` as `Elf::new` writes it. */
  function Ident(c: ElfClass, e: Endian): (r: seq<u8>)
    ensures |r| == 16 && r[..4] == ElfFile.ELFMAG && r[4] == ClassByte(c) && r[5] == DataByte(e)
    ensures r[6] == EV_CURRENT && r[7] == ELFOSABI_NONE && forall k :: 8 <= k < 16 ==> r[k] == 0
  {
    ElfFile.ELFMAG + [ClassByte(c), DataByte(e), EV_CURRENT, ELFOSABI_NONE, 0] + Repeat(0 as u8, 7)
  }

  /**
   * A file that starts with the identification written here and is at
   * least a header long is read back as an ELF file of the same class.
   */
  lemma IdentReadBack(c: ElfClass, e: Endian, rest: seq<u8>)
    requires 16 + |rest| >= ElfFile.EhdrSize(c.Class64?)
    ensures var data := Ident(c, e) + rest;
            ElfFile.Read(data) == Ok(Some(ElfFile.MappedElf(data, ElfFile.HeaderOf(data, c.Class64?))))
  {
    var data := Ident(c, e) + rest;
    assert data[..4] == Ident(c, e)[..4];
    assert data[4] == ClassByte(c);
  }

  // ------------------------------------------------------------ sections and segments

  /** `SectionAttrs` */
  datatype SectionAttrs = SectionAttrs(flags: nat, addr: nat, link: nat, entsize: nat, offset: nat)

  const NO_ATTRS: SectionAttrs := SectionAttrs(0, 0, 0, 0, 0)

  /**
   * `ElfSection` together with the header fields `do_add_section` writes:
   * the offset of its name, its type, its attributes, the address and
   * offset cut to 32 bits as it keeps them, the value written as `sh_size`,
   * and its contents.
   */
  datatype ElfSection = ElfSection(name: nat, kind: nat, attrs: SectionAttrs, addr: nat, offset: nat, size: nat, contents: seq<u8>)

  /** The `SHT_NULL` placeholder at index 0 (`SHN_UNDEF`). */
  const NULL_SECTION: ElfSection := ElfSection(0, SHT_NULL, NO_ATTRS, 0, 0, 0, [])

  /** A section whose contents are written into the file. */
  predicate HasContents(s: ElfSection) {
    s.kind != SHT_NULL && s.kind != SHT_NOBITS
  }

  /** `ElfSection::size`, truncated to 32 bits. */
  function Size32(s: ElfSection): nat { s.size % U32_MODULUS }

  /** A section's share of a segment's file size: its size rounded up to four, or nothing for `SHT_NOBITS`. */
  function FileShare(s: ElfSection): nat {
    if s.kind != SHT_NOBITS then Align4(Size32(s)) else 0
  }

  /** A section's share of a segment's memory size. */
  function MemShare(s: ElfSection): nat {
    if s.kind != SHT_NOBITS then Align4(Size32(s)) else Size32(s)
  }

  function FileSize(secs: seq<ElfSection>): nat
    decreases |secs|
  {
    if |secs| == 0 then 0 else FileShare(secs[0]) + FileSize(secs[1..])
  }

  function MemSize(secs: seq<ElfSection>): nat
    decreases |secs|
  {
    if |secs| == 0 then 0 else MemShare(secs[0]) + MemSize(secs[1..])
  }

  /** The sizes of the sections with contents in the file, before rounding. */
  function RawFileSize(secs: seq<ElfSection>): nat
    decreases |secs|
  {
    if |secs| == 0 then 0 else (if secs[0].kind != SHT_NOBITS then Size32(secs[0]) else 0) + RawFileSize(secs[1..])
  }

  /** The sizes of the `SHT_NOBITS` sections. */
  function NobitsSize(secs: seq<ElfSection>): nat
    decreases |secs|
  {
    if |secs| == 0 then 0 else (if secs[0].kind == SHT_NOBITS then Size32(secs[0]) else 0) + NobitsSize(secs[1..])
  }

  /**
   * A segment's file size is a multiple of four covering each of its
   * sections with contents, with less than four bytes of rounding per
   * section.
   */
  lemma {:induction false} SegmentFileSize(secs: seq<ElfSection>)
    ensures FileSize(secs) % 4 == 0
    ensures RawFileSize(secs) <= FileSize(secs) <= RawFileSize(secs) + 3 * |secs|
    decreases |secs|
  {
    if |secs| != 0 {
      SegmentFileSize(secs[1..]);
    }
  }

  /** A segment's memory size is its file size plus its `SHT_NOBITS` sections. */
  lemma {:induction false} SegmentMemSize(secs: seq<ElfSection>)
    ensures MemSize(secs) == FileSize(secs) + NobitsSize(secs)
    decreases |secs|
  {
    if |secs| != 0 {
      SegmentMemSize(secs[1..]);
    }
  }

  /** A segment as `add_segment` records it: `p_offset` stays the offset of section `start` until `finish`. */
  datatype Segment = Segment(kind: nat, flags: nat, start: nat, addr: nat, fileSize: nat, memSize: nat)

  // ------------------------------------------------------------ layout

  /** How many bytes `align(4)` appends after `n` bytes. */
  function PadLen(n: nat): nat {
    if n >= 4 then PadLen(n - 4) else if n == 0 then 0 else 4 - n
  }

  /** `align(4)` appends fewer than four bytes and ends on a multiple of four. */
  lemma {:induction false} PadLenAligns(n: nat)
    ensures (n + PadLen(n)) % 4 == 0 && PadLen(n) < 4
    decreases n
  {
    if n >= 4 {
      PadLenAligns(n - 4);
      assert n + PadLen(n) == (n - 4 + PadLen(n - 4)) + 4;
    }
  }

  /** No shorter padding would end on a multiple of four. */
  lemma {:induction false} PadLenLeast(n: nat, p: nat)
    requires p < PadLen(n)
    ensures (n + p) % 4 != 0
    decreases n
  {
    if n >= 4 {
      PadLenLeast(n - 4, p);
      assert n + p == (n - 4 + p) + 4;
    }
  }

  /** After a four-aligned prefix, `align(4)` pads as if the prefix were not there. */
  lemma {:induction false} PadLenShift(cursor: nat, n: nat)
    requires cursor % 4 == 0
    ensures PadLen(cursor + n) == PadLen(n)
    decreases cursor
  {
    if cursor > 0 {
      assert cursor >= 4 && (cursor - 4) % 4 == 0;
      PadLenShift(cursor - 4, n);
      assert cursor + n - 4 == (cursor - 4) + n;
    }
  }

  /** The zero bytes `align(4)` appends after `n` bytes. */
  function Padding(n: nat): (r: seq<u8>)
    ensures |r| == PadLen(n)
  {
    seq(PadLen(n), _ => 0)
  }

  /** The offset `finish` gives a section when the file so far is `cursor` bytes long. */
  function OffsetAt(s: ElfSection, cursor: nat): nat {
    if s.kind == SHT_NULL then 0
    else if s.kind == SHT_NOBITS then s.offset
    else cursor
  }

  /**
   * What `finish` appends to the file for a section when the file so far
   * is `cursor` bytes long: the contents, then `align(4)` of the file.
   */
  function Appended(s: ElfSection, cursor: nat): seq<u8> {
    if HasContents(s) then s.contents + Padding(cursor + |s.contents|) else []
  }

  /** A section's contents padded with zeros to a multiple of four bytes. */
  function Padded(s: ElfSection): seq<u8> {
    if HasContents(s) then s.contents + Padding(|s.contents|) else []
  }

  /** Padded contents take a multiple of four bytes. */
  lemma PaddedAligned(s: ElfSection)
    ensures |Padded(s)| % 4 == 0
  {
    if HasContents(s) {
      PadLenAligns(|s.contents|);
    }
  }

  /** On a four-aligned file, aligning the file pads the section to a multiple of four. */
  lemma AppendedAligned(s: ElfSection, cursor: nat)
    requires cursor % 4 == 0
    ensures Appended(s, cursor) == Padded(s)
  {
    if HasContents(s) {
      PadLenShift(cursor, |s.contents|);
    }
  }

  /**
   * The bytes `finish` writes for the first `k` sections. The contents
   * start four-aligned (`ContentsStartAligned`), so by `AppendedAligned`
   * each section adds its padded contents.
   */
  function BodyUpTo(secs: seq<ElfSection>, k: nat): seq<u8>
    requires k <= |secs|
  {
    if k == 0 then [] else BodyUpTo(secs, k - 1) + Padded(secs[k - 1])
  }

  /** Writing section `k` appends its padded contents to the sections before it. */
  lemma BodyUpToLength(secs: seq<ElfSection>, k: nat)
    requires k < |secs|
    ensures |BodyUpTo(secs, k + 1)| == |BodyUpTo(secs, k)| + |Padded(secs[k])|
  {
  }

  /** The bytes written for all the sections. */
  function Body(secs: seq<ElfSection>): seq<u8> {
    BodyUpTo(secs, |secs|)
  }

  /** The offset `finish` resolves section `k`'s offset label to, when the contents start at `start`. */
  function OffsetOf(secs: seq<ElfSection>, start: nat, k: nat): nat
    requires k < |secs|
  {
    OffsetAt(secs[k], start + |BodyUpTo(secs, k)|)
  }

  function Offsets(secs: seq<ElfSection>, start: nat): (r: seq<nat>)
    ensures |r| == |secs|
  {
    seq(|secs|, k requires 0 <= k < |secs| => OffsetOf(secs, start, k))
  }

  /** `e` is found in `body` at offset `at`. */
  predicate Within(body: seq<u8>, at: nat, e: seq<u8>) {
    at + |e| <= |body| && body[at..at + |e|] == e
  }

  /** Bytes found in a prefix are found in the whole. */
  lemma WithinPrefix(a: seq<u8>, b: seq<u8>, at: nat, e: seq<u8>)
    requires Within(a, at, e) && a <= b
    ensures Within(b, at, e)
  {
    assert b[at..at + |e|] == a[at..at + |e|];
  }

  /** Writing more sections only appends to what was written. */
  lemma {:induction false} BodyGrows(secs: seq<ElfSection>, k: nat, n: nat)
    requires k <= n <= |secs|
    ensures BodyUpTo(secs, k) <= BodyUpTo(secs, n)
    decreases n - k
  {
    if k < n {
      BodyGrows(secs, k, n - 1);
      PrefixExtends(BodyUpTo(secs, k), BodyUpTo(secs, n - 1), Padded(secs[n - 1]));
    }
  }

  lemma PrefixExtends(a: seq<u8>, b: seq<u8>, c: seq<u8>)
    requires a <= b
    ensures a <= b + c
  {
  }

  /**
   * Where `finish` puts one section of a file whose section contents start
   * at `start`: the placeholder at offset 0, an `SHT_NOBITS` section at
   * the offset its attributes name, any other section's contents at its
   * offset.
   */
  predicate SectionPlaced(s: ElfSection, off: nat, body: seq<u8>, start: nat) {
    && (s.kind == SHT_NULL ==> off == 0)
    && (s.kind == SHT_NOBITS ==> off == s.offset)
    && (HasContents(s) ==> start <= off && Within(body, off - start, s.contents))
  }

  /** Every section is placed as `finish` promises. */
  lemma SectionPlacedIn(secs: seq<ElfSection>, start: nat, k: nat)
    requires k < |secs|
    ensures SectionPlaced(secs[k], OffsetOf(secs, start, k), Body(secs), start)
  {
    if HasContents(secs[k]) {
      ContentsInBody(secs, k);
      OffsetOfContents(secs, start, k);
    }
  }

  /** A section's contents are found in the bytes written for all the sections, right after those before it. */
  lemma ContentsInBody(secs: seq<ElfSection>, k: nat)
    requires k < |secs| && HasContents(secs[k])
    ensures Within(Body(secs), |BodyUpTo(secs, k)|, secs[k].contents)
  {
    ContentsWithinLater(secs, k, |secs|);
  }

  /** Once written, a section's contents stay right after the sections before it. */
  lemma ContentsWithinLater(secs: seq<ElfSection>, k: nat, l: nat)
    requires k < l <= |secs| && HasContents(secs[k])
    ensures Within(BodyUpTo(secs, l), |BodyUpTo(secs, k)|, secs[k].contents)
  {
    ContentsWithinNext(secs, k);
    BodyGrows(secs, k + 1, l);
    WithinPrefix(BodyUpTo(secs, k + 1), BodyUpTo(secs, l), |BodyUpTo(secs, k)|, secs[k].contents);
  }

  /** A section's contents are the first bytes written after the sections before it. */
  lemma ContentsWithinNext(secs: seq<ElfSection>, k: nat)
    requires k < |secs| && HasContents(secs[k])
    ensures Within(BodyUpTo(secs, k + 1), |BodyUpTo(secs, k)|, secs[k].contents)
  {
    var c := secs[k].contents;
    assert Padded(secs[k]) == c + Padding(|c|);
    WithinHead(BodyUpTo(secs, k), c, Padding(|c|));
  }

  lemma WithinHead(b: seq<u8>, c: seq<u8>, p: seq<u8>)
    ensures Within(b + (c + p), |b|, c)
  {
    assert (b + (c + p))[|b|..|b| + |c|] == c;
  }

  /** The bytes written so far always end on a multiple of four. */
  lemma {:induction false} BodyAligned(secs: seq<ElfSection>, k: nat)
    requires k <= |secs|
    ensures |BodyUpTo(secs, k)| % 4 == 0
    decreases k
  {
    if k > 0 {
      var before, added := |BodyUpTo(secs, k - 1)|, |Padded(secs[k - 1])|;
      assert before % 4 == 0 by { BodyAligned(secs, k - 1); }
      assert added % 4 == 0 by { PaddedAligned(secs[k - 1]); }
      assert |BodyUpTo(secs, k)| == before + added by { BodyUpToLength(secs, k - 1); }
      SumAligned(before, added, |BodyUpTo(secs, k)|);
    }
  }

  /** Two multiples of four add up to a multiple of four. */
  lemma SumAligned(a: nat, b: nat, sum: nat)
    requires a % 4 == 0 && b % 4 == 0 && sum == a + b
    ensures sum % 4 == 0
  {
  }

  /** A section with contents starts four-aligned. */
  predicate StartsAligned(s: ElfSection, off: nat) {
    HasContents(s) ==> off % 4 == 0
  }

  lemma SectionAligned(secs: seq<ElfSection>, start: nat, k: nat)
    requires start % 4 == 0 && k < |secs|
    ensures StartsAligned(secs[k], OffsetOf(secs, start, k))
  {
    BodyAligned(secs, k);
    SumAligned(start, |BodyUpTo(secs, k)|, start + |BodyUpTo(secs, k)|);
  }

  /** The contents of the sections follow one another without overlapping. */
  lemma SectionsOrdered(secs: seq<ElfSection>, start: nat, k: nat, l: nat)
    requires k < l < |secs| && HasContents(secs[k]) && HasContents(secs[l])
    ensures OffsetOf(secs, start, k) + |secs[k].contents| <= OffsetOf(secs, start, l)
  {
    ContentsEndBeforeLater(secs, k, l);
    OffsetOfContents(secs, start, k);
    OffsetOfContents(secs, start, l);
  }

  /** A section's contents end before the bytes written for any later section. */
  lemma ContentsEndBeforeLater(secs: seq<ElfSection>, k: nat, l: nat)
    requires k < l <= |secs| && HasContents(secs[k])
    ensures |BodyUpTo(secs, k)| + |secs[k].contents| <= |BodyUpTo(secs, l)|
  {
    ContentsWithinLater(secs, k, l);
  }

  /** A section with contents is given the offset the file has reached. */
  lemma OffsetOfContents(secs: seq<ElfSection>, start: nat, k: nat)
    requires k < |secs| && HasContents(secs[k])
    ensures OffsetOf(secs, start, k) == start + |BodyUpTo(secs, k)|
  {
  }

  /**
   * `finish`'s loop over the sections: the offset each is given and the
   * bytes appended for them, with the contents starting at `start`.
   */
  method LayOut(sections: seq<ElfSection>, start: nat) returns (offsets: seq<nat>, body: seq<u8>)
    requires start % 4 == 0
    ensures offsets == Offsets(sections, start) && body == Body(sections)
  {
    offsets := [];
    body := [];
    for i := 0 to |sections|
      invariant |offsets| == i && body == BodyUpTo(sections, i)
      invariant forall j :: 0 <= j < i ==> offsets[j] == OffsetOf(sections, start, j)
    {
      var cursor := start + |body|;
      BodyAligned(sections, i);
      SumAligned(start, |body|, cursor);
      AppendedAligned(sections[i], cursor);
      offsets := offsets + [OffsetAt(sections[i], cursor)];
      body := body + Appended(sections[i], cursor);
    }
  }

  /** Where the section contents start: after the file header and, when there are segments, the program header table. */
  function ContentsStart(c: ElfClass, programCount: nat, segmentCount: nat): nat {
    EhSize(c) + if programCount > 0 then segmentCount * PhEntSize(c) else 0
  }

  /** The section header table with every offset label resolved. */
  function SectionHeaders(c: ElfClass, secs: seq<ElfSection>, offsets: seq<nat>): (r: seq<SectionHeader>)
    requires |offsets| == |secs|
    ensures |r| == |secs|
  {
    seq(|secs|, k requires 0 <= k < |secs| => HeaderOfSection(c, secs[k], offsets[k]))
  }

  /** The program header table with every `p_offset` label resolved. */
  function SegmentHeaders(c: ElfClass, segs: seq<Segment>, offsets: seq<nat>): (r: seq<ProgramHeader>)
    requires forall k :: 0 <= k < |segs| ==> segs[k].start < |offsets|
    ensures |r| == |segs|
  {
    seq(|segs|, k requires 0 <= k < |segs| => HeaderOfSegment(c, segs[k], offsets[segs[k].start]))
  }

  // ------------------------------------------------------------ the image

  /** The file header fields after `finish` resolved its labels. */
  datatype FileHeader = FileHeader(
    ident: seq<u8>, kind: nat, machine: nat, version: nat, entry: nat,
    phoff: nat, shoff: nat, flags: nat,
    ehsize: nat, phentsize: nat, phnum: nat, shentsize: nat, shnum: nat, shstrndx: nat)

  datatype ProgramHeader = ProgramHeader(kind: nat, flags: nat, offset: nat, vaddr: nat, paddr: nat, fileSize: nat, memSize: nat, align: nat)

  datatype SectionHeader = SectionHeader(
    name: nat, kind: nat, flags: nat, addr: nat, offset: nat, size: nat, link: nat, info: nat, addralign: nat, entsize: nat)

  /**
   * The finished file: the header, the program header table (present only
   * when there are segments), the section contents placed after it, and
   * the section header table at the end.
   */
  datatype Image = Image(header: FileHeader, programHeaders: seq<ProgramHeader>, body: seq<u8>, sectionHeaders: seq<SectionHeader>)

  function EhSize(c: ElfClass): nat { ElfFile.EhdrSize(c.Class64?) }
  function PhEntSize(c: ElfClass): nat { ElfFile.PhdrSize(c.Class64?) }
  function ShEntSize(c: ElfClass): nat { ElfFile.ShdrSize(c.Class64?) }

  function HeaderOfSection(c: ElfClass, s: ElfSection, offset: nat): SectionHeader {
    SectionHeader(s.name, s.kind, Word(c, s.attrs.flags), Word(c, s.attrs.addr), Word(c, offset),
                  Word(c, s.size), s.attrs.link, 0, 0, Word(c, s.attrs.entsize))
  }

  function HeaderOfSegment(c: ElfClass, g: Segment, offset: nat): ProgramHeader {
    ProgramHeader(g.kind, g.flags, Word(c, offset), Word(c, g.addr), Word(c, g.addr),
                  Word(c, g.fileSize), Word(c, g.memSize), 0)
  }

  /**
   * The `.shstrtab` section as `finish` adds it: `sh_size` is taken from
   * the file being built, which at that point holds only the file header.
   */
  function ShstrtabAsWritten(c: ElfClass, name: nat, table: seq<u8>): (r: ElfSection)
    ensures r == Shstrtab(name, table).(size := EhSize(c))
    ensures r.size == |r.contents| <==> |table| == EhSize(c)
  {
    ElfSection(name, SHT_STRTAB, NO_ATTRS, 0, 0, EhSize(c), table)
  }

  /** The `.shstrtab` section with `sh_size` the length of the string table. */
  function Shstrtab(name: nat, table: seq<u8>): (r: ElfSection)
    ensures HasContents(r) && r.contents == table && r.size == |r.contents|
  {
    ElfSection(name, SHT_STRTAB, NO_ATTRS, 0, 0, |table|, table)
  }

  /**
   * For a file with no named sections the string table holds 11 bytes
   * (the empty name and `.shstrtab`), while `sh_size` as written says 52
   * or 64: a reader taking `sh_size` bytes runs past the table.
   */
  lemma ShstrtabSizeMismatch(c: ElfClass)
    ensures var table := [0 as u8] + SHSTRTAB + [0];
            && |table| == 11
            && ShstrtabAsWritten(c, 1, table).size > |table|
  {
  }

  /** `Elf`: a file being built. */
  class Elf {
    const cls: ElfClass
    const endian: Endian
    const machine: nat
    /** `section_header_strings` */
    const strings: StringTable
    var sections: seq<ElfSection>
    /** The entries of `program_headers`. */
    var segments: seq<Segment>
    var programCount: nat

    predicate Valid()
      reads this, strings
    {
      && strings.Valid()
      && |sections| >= 1 && sections[0] == NULL_SECTION
      && (forall k :: 0 <= k < |sections| ==> sections[k].name in strings.labels.Values)
      && (forall k :: 0 <= k < |segments| ==> segments[k].start < |sections|)
    }

    /** `Elf::new`: only the placeholder section, no segments. */
    constructor New(machine: nat, cls: ElfClass, endian: Endian)
      ensures Valid() && fresh(strings)
      ensures this.machine == machine && this.cls == cls && this.endian == endian
      ensures sections == [NULL_SECTION] && segments == [] && programCount == 0
      ensures strings.bytes == [0] && strings.labels == map[[] := 0]
    {
      this.machine := machine;
      this.cls := cls;
      this.endian := endian;
      strings := new StringTable.WithEndian();
      sections := [];
      segments := [];
      programCount := 0;
      new;
      var index := AddSection([], [], SHT_NULL);
    }

    /** `Elf::add_section`: a section with default attributes. */
    method AddSection(name: seq<u8>, contents: seq<u8>, kind: nat) returns (index: nat)
      requires strings.Valid() && forall k :: 0 <= k < |sections| ==> sections[k].name in strings.labels.Values
      modifies this, strings
      ensures strings.Valid() && name in strings.labels
      ensures index == |old(sections)| && index == |sections| - 1
      ensures sections == old(sections) + [ElfSection(strings.labels[name], kind, NO_ATTRS, 0, 0, |contents|, contents)]
      ensures forall k :: 0 <= k < |sections| ==> sections[k].name in strings.labels.Values
      ensures segments == old(segments) && programCount == old(programCount)
      ensures old(strings.labels).Keys <= strings.labels.Keys
      ensures name in old(strings.labels) ==>
                strings.labels[name] == old(strings.labels)[name] && strings.bytes == old(strings.bytes) && strings.labels == old(strings.labels)
      ensures name !in old(strings.labels) ==>
                && strings.labels[name] == |old(strings.bytes)|
                && strings.bytes == old(strings.bytes) + name + [0]
                && strings.labels == old(strings.labels)[name := |old(strings.bytes)|]
      ensures old(Valid()) ==> Valid()
    {
      index := AddSectionWithAttrs(name, contents, kind, NO_ATTRS);
    }

    /**
     * `Elf::add_section_with_attrs`: the name goes into the string table,
     * the section is appended, and its index is returned.
     */
    method AddSectionWithAttrs(name: seq<u8>, contents: seq<u8>, kind: nat, attrs: SectionAttrs) returns (index: nat)
      requires strings.Valid() && forall k :: 0 <= k < |sections| ==> sections[k].name in strings.labels.Values
      modifies this, strings
      ensures strings.Valid() && name in strings.labels
      ensures index == |old(sections)| && index == |sections| - 1
      ensures sections == old(sections) + [ElfSection(strings.labels[name], kind, attrs, attrs.addr % U32_MODULUS,
                                                           attrs.offset % U32_MODULUS, |contents|, contents)]
      ensures forall k :: 0 <= k < |sections| ==> sections[k].name in strings.labels.Values
      ensures segments == old(segments) && programCount == old(programCount)
      ensures old(strings.labels).Keys <= strings.labels.Keys
      ensures name in old(strings.labels) ==>
                strings.labels[name] == old(strings.labels)[name] && strings.bytes == old(strings.bytes) && strings.labels == old(strings.labels)
      ensures name !in old(strings.labels) ==>
                && strings.labels[name] == |old(strings.bytes)|
                && strings.bytes == old(strings.bytes) + name + [0]
                && strings.labels == old(strings.labels)[name := |old(strings.bytes)|]
      ensures old(Valid()) ==> Valid()
    {
      ghost var before := strings.labels;
      var nameOff := strings.Add(name);
      assert forall v :: v in before.Values ==> v in strings.labels.Values by {
        forall v | v in before.Values
          ensures v in strings.labels.Values
        {
          var s :| s in before && before[s] == v;
          assert s in strings.labels && strings.labels[s] == v;
        }
      }
      sections := sections + [ElfSection(nameOff, kind, attrs, attrs.addr % U32_MODULUS, attrs.offset % U32_MODULUS, |contents|, contents)];
      index := |sections| - 1;
    }

    /**
     * `Elf::add_segment`: a segment over sections `start` up to, not
     * including, `end`. Its file size adds up the sections with contents,
     * each rounded up to four, and its memory size also the `SHT_NOBITS`
     * ones. A range outside the sections, or a `start` that is no section,
     * panics after the segment count was raised.
     */
    method AddSegment(start: nat, end: nat, kind: nat, flags: nat) returns (r: Result<(), Fault>)
      requires Valid()
      modifies this
      ensures Valid() && programCount == old(programCount) + 1 && sections == old(sections)
      ensures r.Ok? <==> start <= end <= |sections| && start < |sections|
      ensures r.Err? ==> r.error == Panic && segments == old(segments)
      ensures r.Ok? ==> segments == old(segments) + [Segment(kind, flags, start, sections[start].addr,
                                                             FileSize(sections[start..end]), MemSize(sections[start..end]))]
    {
      programCount := programCount + 1;
      if !(start <= end <= |sections|) || start >= |sections| {
        return Err(Panic);
      }
      var fileSize := 0;
      var memSize := 0;
      for i := start to end
        invariant fileSize + FileSize(sections[i..end]) == FileSize(sections[start..end])
        invariant memSize + MemSize(sections[i..end]) == MemSize(sections[start..end])
      {
        assert sections[i..end][1..] == sections[i + 1..end];
        var size := Size32(sections[i]);
        if sections[i].kind != SHT_NOBITS {
          size := Align4(size);
          fileSize := fileSize + size;
        }
        memSize := memSize + size;
      }
      segments := segments + [Segment(kind, flags, start, sections[start].addr, fileSize, memSize)];
      return Ok(());
    }

    /**
     * `Elf::finish`: `e_shstrndx` is the number of sections before
     * `.shstrtab` is added and `e_shnum` the number after; the program
     * header table follows the file header when there are segments and
     * `e_phoff` is 0 otherwise; the section contents follow, each
     * four-aligned, and the section header table ends the file.
     */
    method Finish() returns (image: Image)
      requires strings.Valid() && forall k :: 0 <= k < |segments| ==> segments[k].start < |sections|
      modifies this, strings
      ensures strings.Valid() && SHSTRTAB in strings.labels
      ensures SHSTRTAB in old(strings.labels) ==>
                strings.labels[SHSTRTAB] == old(strings.labels)[SHSTRTAB] && strings.bytes == old(strings.bytes) && strings.labels == old(strings.labels)
      ensures SHSTRTAB !in old(strings.labels) ==>
                && strings.labels[SHSTRTAB] == |old(strings.bytes)|
                && strings.bytes == old(strings.bytes) + SHSTRTAB + [0]
                && strings.labels == old(strings.labels)[SHSTRTAB := |old(strings.bytes)|]
      ensures sections == old(sections) + [Shstrtab(strings.labels[SHSTRTAB], strings.bytes)]
      ensures segments == old(segments) && programCount == old(programCount)
      ensures var start := ContentsStart(cls, programCount, |segments|);
              var offsets := Offsets(sections, start);
              && image.header == FileHeader(Ident(cls, endian), ET_EXEC, machine, EV_CURRENT as nat, 0,
                                            if programCount > 0 then EhSize(cls) else 0,
                                            start + |Body(sections)|, 0,
                                            EhSize(cls), PhEntSize(cls), programCount, ShEntSize(cls),
                                            |old(sections)| + 1, |old(sections)|)
              && image.programHeaders == (if programCount > 0 then SegmentHeaders(cls, segments, offsets) else [])
              && image.body == Body(sections)
              && image.sectionHeaders == SectionHeaders(cls, sections, offsets)
    {
      var shstrndx := AddShstrtab();
      var phoff := if programCount > 0 then EhSize(cls) else 0;
      var start := ContentsStart(cls, programCount, |segments|);
      ContentsStartAligned(cls, programCount, |segments|);
      var offsets, body := LayOut(sections, start);
      var programHeaders: seq<ProgramHeader> := [];
      if programCount > 0 {
        programHeaders := SegmentHeaders(cls, segments, offsets);
      }
      image := Image(
        FileHeader(Ident(cls, endian), ET_EXEC, machine, EV_CURRENT as nat, 0, phoff, start + |body|, 0,
                   EhSize(cls), PhEntSize(cls), programCount, ShEntSize(cls), |sections|, shstrndx),
        programHeaders, body, SectionHeaders(cls, sections, offsets));
    }

    /** The first step of `finish`: `.shstrtab` is named and added as the last section. */
    method AddShstrtab() returns (shstrndx: nat)
      requires strings.Valid() && forall k :: 0 <= k < |segments| ==> segments[k].start < |sections|
      modifies this, strings
      ensures strings.Valid() && SHSTRTAB in strings.labels && shstrndx == |old(sections)|
      ensures SHSTRTAB in old(strings.labels) ==>
                strings.labels[SHSTRTAB] == old(strings.labels)[SHSTRTAB] && strings.bytes == old(strings.bytes) && strings.labels == old(strings.labels)
      ensures SHSTRTAB !in old(strings.labels) ==>
                && strings.labels[SHSTRTAB] == |old(strings.bytes)|
                && strings.bytes == old(strings.bytes) + SHSTRTAB + [0]
                && strings.labels == old(strings.labels)[SHSTRTAB := |old(strings.bytes)|]
      ensures sections == old(sections) + [Shstrtab(strings.labels[SHSTRTAB], strings.bytes)]
      ensures segments == old(segments) && programCount == old(programCount)
      ensures forall k :: 0 <= k < |segments| ==> segments[k].start < |sections|
    {
      shstrndx := |sections|;
      var nameOff := strings.Add(SHSTRTAB);
      var table := strings.bytes;
      sections := sections + [Shstrtab(nameOff, table)];
    }
  }

  /**
   * In a finished file every section with contents lies four-aligned after
   * the headers, its bytes are at the offset its section header gives, and
   * the section header table starts four-aligned after all of them.
   */
  lemma FinishedLayout(c: ElfClass, programCount: nat, segmentCount: nat, secs: seq<ElfSection>, k: nat)
    requires k < |secs| && HasContents(secs[k])
    ensures var start := ContentsStart(c, programCount, segmentCount);
            var off := OffsetOf(secs, start, k);
            && off % 4 == 0
            && start <= off && off + |secs[k].contents| <= start + |Body(secs)|
            && Within(Body(secs), off - start, secs[k].contents)
            && (start + |Body(secs)|) % 4 == 0
  {
    var start := ContentsStart(c, programCount, segmentCount);
    ContentsStartAligned(c, programCount, segmentCount);
    SectionPlacedIn(secs, start, k);
    SectionAligned(secs, start, k);
    BodyAligned(secs, |secs|);
    SumAligned(start, |Body(secs)|, start + |Body(secs)|);
  }

  /** The headers before the section contents take a multiple of four bytes. */
  lemma ContentsStartAligned(c: ElfClass, programCount: nat, segmentCount: nat)
    ensures ContentsStart(c, programCount, segmentCount) % 4 == 0
  {
    var perEntry := PhEntSize(c) / 4;
    assert PhEntSize(c) == 4 * perEntry && EhSize(c) == 4 * (EhSize(c) / 4);
    assert segmentCount * PhEntSize(c) == 4 * (segmentCount * perEntry);
    MultipleOfFour(EhSize(c) / 4 + if programCount > 0 then segmentCount * perEntry else 0);
  }

  lemma MultipleOfFour(x: nat)
    ensures (4 * x) % 4 == 0
  {
  }
}
