/**
 * Stack sanitization (`PTraceDumper::sanitize_stack`): every full word of a
 * copied stack that does not look like a pointer into code, into the
 * stack itself, or like a small integer is overwritten with a sentinel;
 * the bytes below the stack pointer and the trailing partial word are
 * zeroed.
 *
 * Candidate words are first filtered through a 256-byte bitmap with one
 * bit per 2 MiB region (modulo 4 GiB) that any executable mapping touches.
 */
module Sanitize {
  import opened Wrappers
  import opened Mapping
  import opened LittleEndian
  import PageVec

  /** The 64-bit sentinel written over wiped words. */
  const SENTINEL: nat := 0x0defaced0defaced
  /** Bytes of the hit bitmap: `1 << (TEST_BITS - 3)` with `TEST_BITS` = 11. */
  const ARRAY_SIZE: nat := 256
  /** `1 << SHIFT` with `SHIFT` = 32 - 11: an address is tested by its 2 MiB region. */
  const SHIFT_DIV: nat := 0x20_0000
  const SMALL_INT_MAGNITUDE: int := 4 * 1024

  /** `addr as isize` on the 64-bit target. */
  function AsSigned(addr: nat): int {
    if addr >= 0x8000_0000_0000_0000 then addr - 0x1_0000_0000_0000_0000 else addr
  }

  /** A word whose signed value lies within the small-integer magnitude. */
  predicate Small(addr: nat) {
    -SMALL_INT_MAGNITUDE <= AsSigned(addr) <= SMALL_INT_MAGNITUDE
  }

  // ---------------------------------------------------------------- bitmap

  /** `1 << k` as a byte. */
  function Mask(k: nat): bv8
    requires k < 8
  {
    if k == 0 then 1 else if k == 1 then 2 else if k == 2 then 4 else if k == 3 then 8
    else if k == 4 then 16 else if k == 5 then 32 else if k == 6 then 64 else 128
  }

  /** `(t >> 3) & ARRAY_MASK`: the byte of the bitmap that holds bit `t`. */
  function ByteIndex(t: nat): nat {
    (t / 8) % ARRAY_SIZE
  }

  /** Bit `t` of a bitmap of `ARRAY_SIZE` bytes is set. */
  predicate BitSet(bits: seq<bv8>, t: nat) {
    |bits| == ARRAY_SIZE && bits[ByteIndex(t)] & Mask(t % 8) != 0
  }

  /** `could_hit_mapping[(t >> 3) & ARRAY_MASK] |= 1 << (t & 7)`. */
  function SetBit(bits: seq<bv8>, t: nat): (r: seq<bv8>)
    requires |bits| == ARRAY_SIZE
    ensures |r| == ARRAY_SIZE
  {
    bits[ByteIndex(t) := bits[ByteIndex(t)] | Mask(t % 8)]
  }

  lemma MaskOr(x: bv8, k: nat, j: nat)
    requires k < 8 && j < 8
    ensures (x | Mask(k)) & Mask(k) != 0
    ensures x & Mask(j) != 0 ==> (x | Mask(k)) & Mask(j) != 0
  {
  }

  /** Setting a bit sets it and keeps every bit that was set. */
  lemma SetBitSpec(bits: seq<bv8>, t: nat, u: nat)
    requires |bits| == ARRAY_SIZE
    ensures BitSet(SetBit(bits, t), t)
    ensures BitSet(bits, u) ==> BitSet(SetBit(bits, t), u)
  {
    MaskOr(bits[ByteIndex(t)], t % 8, t % 8);
    MaskOr(bits[ByteIndex(t)], t % 8, u % 8);
  }

  /** The inner loop `for bit in lo..=hi`: sets bits `lo` to `hi`. */
  function MarkRange(bits: seq<bv8>, lo: nat, hi: nat): (r: seq<bv8>)
    requires |bits| == ARRAY_SIZE
    ensures |r| == ARRAY_SIZE
    decreases hi + 1 - lo
  {
    if lo > hi then bits else MarkRange(SetBit(bits, lo), lo + 1, hi)
  }

  /** Marking a range sets every bit of it and clears none. */
  lemma {:induction false} MarkRangeSpec(bits: seq<bv8>, lo: nat, hi: nat, u: nat)
    requires |bits| == ARRAY_SIZE
    ensures lo <= u <= hi ==> BitSet(MarkRange(bits, lo, hi), u)
    ensures BitSet(bits, u) ==> BitSet(MarkRange(bits, lo, hi), u)
    decreases hi + 1 - lo
  {
    if lo <= hi {
      SetBitSpec(bits, lo, u);
      MarkRangeSpec(SetBit(bits, lo), lo + 1, hi, u);
    }
  }

  /** The region numbers an executable mapping spans: `start >> SHIFT ..= (start + size) >> SHIFT`. */
  function RegionLo(m: MappingInfo): nat { m.startAddr / SHIFT_DIV }
  function RegionHi(m: MappingInfo): nat { (m.startAddr + m.size) / SHIFT_DIV }

  /** `[0u8; ARRAY_SIZE]`. */
  function EmptyBitmap(): (r: seq<bv8>)
    ensures |r| == ARRAY_SIZE
  {
    seq(ARRAY_SIZE, _ => 0)
  }

  /** `could_hit_mapping` after the loop over `ms`. */
  function HitBitmap(ms: seq<MappingInfo>): (r: seq<bv8>)
    ensures |r| == ARRAY_SIZE
  {
    if |ms| == 0 then EmptyBitmap()
    else
      var before := HitBitmap(ms[..|ms| - 1]);
      var m := ms[|ms| - 1];
      if m.hasExec then MarkRange(before, RegionLo(m), RegionHi(m)) else before
  }

  /** Region numbers grow with the address. */
  lemma RegionMono(x: nat, y: nat)
    requires x <= y
    ensures x / SHIFT_DIV <= y / SHIFT_DIV
  {
  }

  /**
   * The bitmap over-approximates the executable mappings: the region of
   * every address inside one has its bit set, so a clear bit proves that
   * no executable mapping contains the word.
   */
  lemma {:induction false} HitBitmapCovers(ms: seq<MappingInfo>, i: nat, a: nat)
    requires i < |ms| && ms[i].hasExec && ContainsAddress(ms[i], a)
    ensures BitSet(HitBitmap(ms), a / SHIFT_DIV)
    decreases |ms|
  {
    var init := ms[..|ms| - 1];
    var m := ms[|ms| - 1];
    if i == |ms| - 1 {
      RegionMono(m.startAddr, a);
      RegionMono(a, m.startAddr + m.size);
      MarkRangeSpec(HitBitmap(init), RegionLo(m), RegionHi(m), a / SHIFT_DIV);
    } else {
      assert init[i] == ms[i];
      HitBitmapCovers(init, i, a);
      if m.hasExec {
        MarkRangeSpec(HitBitmap(init), RegionLo(m), RegionHi(m), a / SHIFT_DIV);
      }
    }
  }

  /** Extending the list by one mapping marks that mapping's regions, if it is executable. */
  lemma HitBitmapSnoc(ms: seq<MappingInfo>, i: nat)
    requires i < |ms|
    ensures HitBitmap(ms[..i + 1])
            == if ms[i].hasExec then MarkRange(HitBitmap(ms[..i]), RegionLo(ms[i]), RegionHi(ms[i]))
               else HitBitmap(ms[..i])
  {
    assert ms[..i + 1][..i] == ms[..i];
  }

  /** The inner loop `for bit in start..=end` of the bitmap loop, on the array. */
  method MarkBits(bits: array<bv8>, start: nat, end: nat)
    requires bits.Length == ARRAY_SIZE
    modifies bits
    ensures bits[..] == MarkRange(old(bits[..]), start, end)
  {
    var bit := start;
    while bit <= end
      invariant start <= bit
      invariant MarkRange(bits[..], bit, end) == MarkRange(old(bits[..]), start, end)
      decreases end + 1 - bit
    {
      ghost var before := bits[..];
      bits[(bit / 8) % ARRAY_SIZE] := bits[(bit / 8) % ARRAY_SIZE] | Mask(bit % 8);
      assert bits[..] == SetBit(before, bit);
      bit := bit + 1;
    }
  }

  /** The first loop of `sanitize_stack`: builds the bitmap over the module list. */
  method CouldHitMapping(ms: seq<MappingInfo>) returns (bits: array<bv8>)
    ensures fresh(bits) && bits.Length == ARRAY_SIZE
    ensures bits[..] == HitBitmap(ms)
  {
    bits := new bv8[ARRAY_SIZE](_ => 0);
    assert bits[..] == EmptyBitmap();
    var i := 0;
    while i < |ms|
      invariant i <= |ms| && bits[..] == HitBitmap(ms[..i])
    {
      HitBitmapSnoc(ms, i);
      var mapping := ms[i];
      if mapping.hasExec {
        var start := mapping.startAddr / SHIFT_DIV;
        var end := (mapping.startAddr + mapping.size) / SHIFT_DIV;
        MarkBits(bits, start, end);
      }
      i := i + 1;
    }
    assert ms[..i] == ms;
  }

  // ------------------------------------------------------------- decisions

  predicate InMapping(o: Option<MappingInfo>, a: nat) {
    o.Some? && ContainsAddress(o.value, a)
  }

  /** The first mapping that contains the address is executable. */
  predicate FirstExec(ms: seq<MappingInfo>, a: nat) {
    var f := FindMappingNoBias(ms, a);
    f.Some? && ms[f.value].hasExec
  }

  /** Some executable mapping of the list contains the address. */
  predicate ExecCovers(ms: seq<MappingInfo>, a: nat) {
    exists i :: 0 <= i < |ms| && ms[i].hasExec && ContainsAddress(ms[i], a)
  }

  /** A word the sanitizer must keep: a small integer, a stack address or a pointer into code. */
  predicate Protected(ms: seq<MappingInfo>, stackMapping: Option<MappingInfo>, a: nat) {
    Small(a) || InMapping(stackMapping, a) || FirstExec(ms, a)
  }

  /** A reason to keep a word: a small integer, a stack address or an address in some executable mapping. */
  predicate Justified(ms: seq<MappingInfo>, stackMapping: Option<MappingInfo>, a: nat) {
    Small(a) || InMapping(stackMapping, a) || ExecCovers(ms, a)
  }

  /** `last_hit_mapping` is always an executable mapping of the list. */
  predicate HitOk(ms: seq<MappingInfo>, lastHit: Option<MappingInfo>) {
    lastHit.Some? ==> lastHit.value in ms && lastHit.value.hasExec
  }

  datatype Verdict = Verdict(keep: bool, lastHit: Option<MappingInfo>)

  /** The body of the word loop for the word `addr`: keep it or not, and the new `last_hit_mapping`. */
  function Decide(ms: seq<MappingInfo>, bits: seq<bv8>, stackMapping: Option<MappingInfo>, lastHit: Option<MappingInfo>, addr: nat)
    : Verdict
  {
    if Small(addr) then Verdict(true, lastHit)
    else if InMapping(stackMapping, addr) then Verdict(true, lastHit)
    else if InMapping(lastHit, addr) then Verdict(true, lastHit)
    else if CodeHit(ms, bits, addr).Some? then Verdict(true, CodeHit(ms, bits, addr))
    else Verdict(false, lastHit)
  }

  /**
   * The last test of the word loop: the word's region is marked in the
   * bitmap and the first mapping containing it is executable; that mapping.
   */
  function CodeHit(ms: seq<MappingInfo>, bits: seq<bv8>, addr: nat): Option<MappingInfo> {
    if BitSet(bits, addr / SHIFT_DIV) && FirstExec(ms, addr) then
      Some(ms[FindMappingNoBias(ms, addr).value])
    else None
  }

  /**
   * A word is kept exactly for a reason: every protected word is kept,
   * every kept word is justified, and the remembered mapping stays an
   * executable mapping of the list.
   */
  lemma DecideSpec(ms: seq<MappingInfo>, bits: seq<bv8>, stackMapping: Option<MappingInfo>, lastHit: Option<MappingInfo>, addr: nat)
    requires bits == HitBitmap(ms) && HitOk(ms, lastHit)
    ensures Protected(ms, stackMapping, addr) ==> Decide(ms, bits, stackMapping, lastHit, addr).keep
    ensures Decide(ms, bits, stackMapping, lastHit, addr).keep ==> Justified(ms, stackMapping, addr)
    ensures HitOk(ms, Decide(ms, bits, stackMapping, lastHit, addr).lastHit)
  {
    var f := FindMappingNoBias(ms, addr);
    if FirstExec(ms, addr) {
      HitBitmapCovers(ms, f.value, addr);
    }
    if InMapping(lastHit, addr) {
      var i :| 0 <= i < |ms| && ms[i] == lastHit.value;
      assert ms[i].hasExec && ContainsAddress(ms[i], addr);
    }
  }

  // ---------------------------------------------------------------- words

  /** The word of the stack at byte offset `q`. */
  function Word(s: seq<u8>, q: nat): seq<u8>
    requires q + WORD_SIZE <= |s|
  {
    s[q..q + WORD_SIZE]
  }

  /** `sp.write(v)`: the word at `p` replaced by the bytes of `v`. */
  function WriteWord(s: seq<u8>, p: nat, v: nat): (r: seq<u8>)
    requires p + WORD_SIZE <= |s|
    ensures |r| == |s|
  {
    s[..p] + LeBytes(v, WORD_SIZE) + s[p + WORD_SIZE..]
  }

  /** The bytes of the sentinel. */
  function SentinelBytes(): seq<u8> {
    LeBytes(SENTINEL, WORD_SIZE)
  }

  /** The stack after the loop body has handled the word at `p`. */
  function StepStack(s: seq<u8>, p: nat, ms: seq<MappingInfo>, bits: seq<bv8>, stackMapping: Option<MappingInfo>,
                     lastHit: Option<MappingInfo>): (r: seq<u8>)
    requires p + WORD_SIZE <= |s|
    ensures |r| == |s|
  {
    if Decide(ms, bits, stackMapping, lastHit, LeAt(s, p, WORD_SIZE)).keep then s else WriteWord(s, p, SENTINEL)
  }

  /** The loop body changes no byte outside the word it handles. */
  lemma StepStackFrame(s: seq<u8>, p: nat, ms: seq<MappingInfo>, bits: seq<bv8>, stackMapping: Option<MappingInfo>,
                       lastHit: Option<MappingInfo>, i: nat)
    requires p + WORD_SIZE <= |s| && i < |s| && (i < p || p + WORD_SIZE <= i)
    ensures StepStack(s, p, ms, bits, stackMapping, lastHit)[i] == s[i]
  {
    WriteWordSpec(s, p, SENTINEL);
  }

  /** The loop body leaves every later word as it was. */
  lemma StepStackWord(s: seq<u8>, p: nat, ms: seq<MappingInfo>, bits: seq<bv8>, stackMapping: Option<MappingInfo>,
                      lastHit: Option<MappingInfo>, q: nat)
    requires p + WORD_SIZE <= q && q + WORD_SIZE <= |s|
    ensures Word(StepStack(s, p, ms, bits, stackMapping, lastHit), q) == Word(s, q)
    ensures LeAt(StepStack(s, p, ms, bits, stackMapping, lastHit), q, WORD_SIZE) == LeAt(s, q, WORD_SIZE)
  {
    var t := StepStack(s, p, ms, bits, stackMapping, lastHit);
    forall i | q <= i < q + WORD_SIZE
      ensures t[i] == s[i]
    {
      StepStackFrame(s, p, ms, bits, stackMapping, lastHit, i);
    }
    SameWord(t, s, q);
  }

  /** `last_hit_mapping` after the loop body has handled the word at `p`. */
  function StepHit(s: seq<u8>, p: nat, ms: seq<MappingInfo>, bits: seq<bv8>, stackMapping: Option<MappingInfo>,
                   lastHit: Option<MappingInfo>): Option<MappingInfo>
    requires p + WORD_SIZE <= |s|
  {
    Decide(ms, bits, stackMapping, lastHit, LeAt(s, p, WORD_SIZE)).lastHit
  }

  /** One loop body: the word at `p` comes out as `Outcome` says, and the remembered mapping stays valid. */
  lemma StepSpec(s: seq<u8>, p: nat, ms: seq<MappingInfo>, bits: seq<bv8>, stackMapping: Option<MappingInfo>,
                 lastHit: Option<MappingInfo>)
    requires bits == HitBitmap(ms) && HitOk(ms, lastHit) && p + WORD_SIZE <= |s|
    ensures Outcome(Word(StepStack(s, p, ms, bits, stackMapping, lastHit), p), Word(s, p), LeAt(s, p, WORD_SIZE),
                    ms, stackMapping)
    ensures HitOk(ms, StepHit(s, p, ms, bits, stackMapping, lastHit))
  {
    DecideSpec(ms, bits, stackMapping, lastHit, LeAt(s, p, WORD_SIZE));
    WriteWordSpec(s, p, SENTINEL);
  }

  /**
   * The word loop from byte offset `p` on, as evidently intended: every
   * word is visited once, kept or overwritten with the sentinel, and the
   * stack pointer then moves to the next word.
   */
  function SanitizeFrom(s: seq<u8>, p: nat, ms: seq<MappingInfo>, bits: seq<bv8>, stackMapping: Option<MappingInfo>,
                        lastHit: Option<MappingInfo>): (r: seq<u8>)
    ensures |r| == |s|
    decreases |s| - p
  {
    if p + WORD_SIZE > |s| then s
    else
      SanitizeFrom(StepStack(s, p, ms, bits, stackMapping, lastHit), p + WORD_SIZE, ms, bits, stackMapping,
                   StepHit(s, p, ms, bits, stackMapping, lastHit))
  }

  /** One turn of the loop, when a whole word is left. */
  lemma SanitizeFromStep(s: seq<u8>, p: nat, ms: seq<MappingInfo>, bits: seq<bv8>, stackMapping: Option<MappingInfo>,
                         lastHit: Option<MappingInfo>)
    requires p + WORD_SIZE <= |s|
    ensures SanitizeFrom(s, p, ms, bits, stackMapping, lastHit)
            == SanitizeFrom(StepStack(s, p, ms, bits, stackMapping, lastHit), p + WORD_SIZE, ms, bits, stackMapping,
                            StepHit(s, p, ms, bits, stackMapping, lastHit))
  {
  }

  /** Past the last whole word the loop stops. */
  lemma SanitizeFromDone(s: seq<u8>, p: nat, ms: seq<MappingInfo>, bits: seq<bv8>, stackMapping: Option<MappingInfo>,
                         lastHit: Option<MappingInfo>)
    requires p + WORD_SIZE > |s|
    ensures SanitizeFrom(s, p, ms, bits, stackMapping, lastHit) == s
  {
  }

  /** The loop never touches bytes below where it starts. */
  lemma {:induction false} SanitizeFromFrame(s: seq<u8>, p: nat, ms: seq<MappingInfo>, bits: seq<bv8>,
                                             stackMapping: Option<MappingInfo>, lastHit: Option<MappingInfo>, i: nat)
    requires i < p && i < |s|
    ensures SanitizeFrom(s, p, ms, bits, stackMapping, lastHit)[i] == s[i]
    decreases |s| - p
  {
    if p + WORD_SIZE <= |s| {
      StepStackFrame(s, p, ms, bits, stackMapping, lastHit, i);
      SanitizeFromFrame(StepStack(s, p, ms, bits, stackMapping, lastHit), p + WORD_SIZE, ms, bits, stackMapping,
                        StepHit(s, p, ms, bits, stackMapping, lastHit), i);
    }
  }

  /** Writing a word changes those eight bytes and no other. */
  lemma WriteWordSpec(s: seq<u8>, p: nat, v: nat)
    requires p + WORD_SIZE <= |s|
    ensures Word(WriteWord(s, p, v), p) == LeBytes(v, WORD_SIZE)
    ensures forall i :: 0 <= i < |s| && (i < p || p + WORD_SIZE <= i) ==> WriteWord(s, p, v)[i] == s[i]
  {
  }

  /**
   * What happens to one word: it comes out unchanged and there is a reason
   * to keep it, or it comes out as the sentinel and was not protected.
   */
  predicate Outcome(after: seq<u8>, before: seq<u8>, a: nat, ms: seq<MappingInfo>, stackMapping: Option<MappingInfo>) {
    || (after == before && Justified(ms, stackMapping, a))
    || (after == SentinelBytes() && !Protected(ms, stackMapping, a))
  }

  /** Two stacks that agree on the bytes of the word at `q` hold the same word there. */
  lemma SameWord(s: seq<u8>, t: seq<u8>, q: nat)
    requires |s| == |t| && q + WORD_SIZE <= |s|
    requires forall i :: q <= i < q + WORD_SIZE ==> s[i] == t[i]
    ensures Word(s, q) == Word(t, q) && LeAt(s, q, WORD_SIZE) == LeAt(t, q, WORD_SIZE)
  {
    LeAtFrame(s, q, t, q, WORD_SIZE);
  }

  /** The first word the loop visits. */
  lemma SanitizeFromFirstWord(s: seq<u8>, p: nat, ms: seq<MappingInfo>, bits: seq<bv8>,
                              stackMapping: Option<MappingInfo>, lastHit: Option<MappingInfo>)
    requires bits == HitBitmap(ms) && HitOk(ms, lastHit) && p + WORD_SIZE <= |s|
    ensures Outcome(Word(SanitizeFrom(s, p, ms, bits, stackMapping, lastHit), p), Word(s, p), LeAt(s, p, WORD_SIZE),
                    ms, stackMapping)
  {
    var s' := StepStack(s, p, ms, bits, stackMapping, lastHit);
    var h' := StepHit(s, p, ms, bits, stackMapping, lastHit);
    var r := SanitizeFrom(s', p + WORD_SIZE, ms, bits, stackMapping, h');
    StepSpec(s, p, ms, bits, stackMapping, lastHit);
    forall i | p <= i < p + WORD_SIZE
      ensures r[i] == s'[i]
    {
      SanitizeFromFrame(s', p + WORD_SIZE, ms, bits, stackMapping, h', i);
    }
    SameWord(r, s', p);
  }

  /** The mapping the loop remembers is always an executable mapping of the list. */
  lemma StepHitOk(s: seq<u8>, p: nat, ms: seq<MappingInfo>, bits: seq<bv8>, stackMapping: Option<MappingInfo>,
                  lastHit: Option<MappingInfo>)
    requires HitOk(ms, lastHit) && p + WORD_SIZE <= |s|
    ensures HitOk(ms, StepHit(s, p, ms, bits, stackMapping, lastHit))
  {
  }

  /** The next aligned offset after `p` does not pass a later aligned offset `q`. */
  lemma NextAligned(p: nat, q: nat)
    requires p % WORD_SIZE == 0 && q % WORD_SIZE == 0 && p < q
    ensures p + WORD_SIZE <= q && (p + WORD_SIZE) % WORD_SIZE == 0
  {
  }

  /**
   * The loop, started at the word-aligned offset `p`, reaches the aligned
   * offset `q` with the word there still as it was and a valid remembered
   * mapping, and carries on from there.
   */
  lemma {:induction false} ReachWord(s: seq<u8>, p: nat, ms: seq<MappingInfo>, bits: seq<bv8>,
                                     stackMapping: Option<MappingInfo>, lastHit: Option<MappingInfo>, q: nat)
      returns (t: seq<u8>, hit: Option<MappingInfo>)
    requires HitOk(ms, lastHit)
    requires p % WORD_SIZE == 0 && q % WORD_SIZE == 0 && p <= q && q + WORD_SIZE <= |s|
    ensures |t| == |s| && HitOk(ms, hit)
    ensures Word(t, q) == Word(s, q) && LeAt(t, q, WORD_SIZE) == LeAt(s, q, WORD_SIZE)
    ensures SanitizeFrom(s, p, ms, bits, stackMapping, lastHit) == SanitizeFrom(t, q, ms, bits, stackMapping, hit)
    decreases q - p
  {
    if p == q {
      t, hit := s, lastHit;
    } else {
      var s' := StepStack(s, p, ms, bits, stackMapping, lastHit);
      var h' := StepHit(s, p, ms, bits, stackMapping, lastHit);
      NextAligned(p, q);
      StepHitOk(s, p, ms, bits, stackMapping, lastHit);
      SanitizeFromStep(s, p, ms, bits, stackMapping, lastHit);
      t, hit := ReachWord(s', p + WORD_SIZE, ms, bits, stackMapping, h', q);
      StepStackWord(s, p, ms, bits, stackMapping, lastHit, q);
    }
  }

  /**
   * Each word the loop visits ends up either unchanged and justified, or
   * the sentinel in place of a word that was not protected.
   */
  lemma SanitizeFromWord(s: seq<u8>, p: nat, ms: seq<MappingInfo>, bits: seq<bv8>,
                         stackMapping: Option<MappingInfo>, lastHit: Option<MappingInfo>, q: nat)
    requires bits == HitBitmap(ms) && HitOk(ms, lastHit)
    requires p % WORD_SIZE == 0 && q % WORD_SIZE == 0 && p <= q && q + WORD_SIZE <= |s|
    ensures Outcome(Word(SanitizeFrom(s, p, ms, bits, stackMapping, lastHit), q), Word(s, q), LeAt(s, q, WORD_SIZE),
                    ms, stackMapping)
  {
    var t, hit := ReachWord(s, p, ms, bits, stackMapping, lastHit, q);
    SanitizeFromFirstWord(t, q, ms, bits, stackMapping, hit);
  }

  /** `(offset + size_of::<usize>() - 1) & !(size_of::<usize>() - 1)`: the offset rounded up to a word. */
  function ZeroOffset(offset: nat): (z: nat)
    ensures z % WORD_SIZE == 0 && offset <= z < offset + WORD_SIZE
  {
    (offset + WORD_SIZE - 1) / WORD_SIZE * WORD_SIZE
  }

  /** The stack with its first `n` bytes zeroed. */
  function ZeroHead(s: seq<u8>, n: nat): (r: seq<u8>)
    requires n <= |s|
    ensures |r| == |s|
  {
    PageVec.Repeat(0, n) + s[n..]
  }

  /** The stack with the bytes after its last full word zeroed. */
  function ZeroPartial(s: seq<u8>): (r: seq<u8>)
    ensures |r| == |s|
  {
    var partial := |s| % WORD_SIZE;
    s[..|s| - partial] + PageVec.Repeat(0, partial)
  }

  /**
   * `sanitize_stack` as evidently intended, on the bytes of the stack copy:
   * zero the bytes below the rounded-up offset, sweep the words, zero the
   * trailing partial word.
   */
  function Sanitized(s: seq<u8>, ms: seq<MappingInfo>, stackMapping: Option<MappingInfo>, offset: nat): (r: seq<u8>)
    requires WORD_SIZE <= |s| && ZeroOffset(offset) <= |s|
    ensures |r| == |s|
  {
    var zo := ZeroOffset(offset);
    ZeroPartial(SanitizeFrom(ZeroHead(s, zo), zo, ms, HitBitmap(ms), stackMapping, None))
  }

  /** Sanitizing zeroes every byte below the rounded-up offset. */
  lemma SanitizedHead(s: seq<u8>, ms: seq<MappingInfo>, stackMapping: Option<MappingInfo>, offset: nat, i: nat)
    requires WORD_SIZE <= |s| && ZeroOffset(offset) <= |s|
    requires i < ZeroOffset(offset)
    ensures Sanitized(s, ms, stackMapping, offset)[i] == 0
  {
    var zo := ZeroOffset(offset);
    var zeroed := ZeroHead(s, zo);
    SanitizeFromFrame(zeroed, zo, ms, HitBitmap(ms), stackMapping, None, i);
  }

  /** Sanitizing zeroes every byte of the trailing partial word. */
  lemma SanitizedTail(s: seq<u8>, ms: seq<MappingInfo>, stackMapping: Option<MappingInfo>, offset: nat, i: nat)
    requires WORD_SIZE <= |s| && ZeroOffset(offset) <= |s|
    requires |s| - |s| % WORD_SIZE <= i < |s|
    ensures Sanitized(s, ms, stackMapping, offset)[i] == 0
  {
  }

  /**
   * Every full word from the rounded-up offset on is either kept for a
   * reason or replaced by the sentinel, and never replaced when it is a
   * small integer, a stack address or a pointer into an executable mapping.
   */
  lemma SanitizedWord(s: seq<u8>, ms: seq<MappingInfo>, stackMapping: Option<MappingInfo>, offset: nat, q: nat)
    requires WORD_SIZE <= |s| && ZeroOffset(offset) <= |s|
    requires ZeroOffset(offset) <= q && q % WORD_SIZE == 0 && q + WORD_SIZE <= |s|
    ensures Outcome(Word(Sanitized(s, ms, stackMapping, offset), q), Word(s, q), LeAt(s, q, WORD_SIZE), ms, stackMapping)
  {
    var zo := ZeroOffset(offset);
    var zeroed := ZeroHead(s, zo);
    var swept := SanitizeFrom(zeroed, zo, ms, HitBitmap(ms), stackMapping, None);
    var r := Sanitized(s, ms, stackMapping, offset);
    SanitizeFromWord(zeroed, zo, ms, HitBitmap(ms), stackMapping, None, q);
    AlignedBelow(q, |s|);
    forall i | q <= i < q + WORD_SIZE
      ensures r[i] == swept[i] && zeroed[i] == s[i]
    {
    }
    SameWord(r, swept, q);
    SameWord(zeroed, s, q);
  }

  /** A word that fits in the stack lies wholly before its trailing partial word. */
  lemma AlignedBelow(q: nat, n: nat)
    requires q % WORD_SIZE == 0 && q + WORD_SIZE <= n
    ensures q + WORD_SIZE <= n - n % WORD_SIZE
  {
  }

  // ------------------------------------------------------------ the method

  /** `sp.write(v)` on the stack copy. */
  method WriteWordAt(stack: array<u8>, p: nat, v: nat)
    requires p + WORD_SIZE <= stack.Length
    modifies stack
    ensures stack[..] == WriteWord(old(stack[..]), p, v)
  {
    forall j | 0 <= j < WORD_SIZE {
      stack[p + j] := ByteOf(v, j);
    }
  }

  /** `stack[lo..hi].fill(0)`. */
  method ZeroFill(stack: array<u8>, lo: nat, hi: nat)
    requires lo <= hi <= stack.Length
    modifies stack
    ensures stack[..] == old(stack[..lo]) + PageVec.Repeat(0, hi - lo) + old(stack[hi..])
  {
    forall i | lo <= i < hi {
      stack[i] := 0;
    }
  }

  /** The bit test of the loop reads the bit `BitSet` names. */
  lemma BitSetAt(bits: seq<bv8>, t: nat)
    requires |bits| == ARRAY_SIZE
    ensures BitSet(bits, t) <==> bits[(t / 8) % ARRAY_SIZE] & Mask(t % 8) != 0
  {
  }

  /**
   * The bitmap test of the word loop and, when it passes, the lookup of the
   * first mapping containing the word, kept when it is executable.
   */
  method LookupCode(ms: seq<MappingInfo>, bits: seq<bv8>, addr: nat) returns (code: Option<MappingInfo>)
    requires |bits| == ARRAY_SIZE
    ensures code == CodeHit(ms, bits, addr)
  {
    var test := addr / SHIFT_DIV;
    BitSetAt(bits, test);
    code := None;
    if bits[(test / 8) % ARRAY_SIZE] & Mask(test % 8) != 0 {
      var found := FindMappingNoBias(ms, addr);
      if found.Some? && ms[found.value].hasExec {
        code := Some(ms[found.value]);
      }
    }
  }

  /** A word the loop keeps: the stack stays as it is and `hit` is remembered. */
  lemma KeepStep(s: seq<u8>, p: nat, ms: seq<MappingInfo>, bits: seq<bv8>, stackMapping: Option<MappingInfo>,
                 lastHit: Option<MappingInfo>, hit: Option<MappingInfo>)
    requires p + WORD_SIZE <= |s|
    requires Decide(ms, bits, stackMapping, lastHit, LeAt(s, p, WORD_SIZE)) == Verdict(true, hit)
    ensures StepStack(s, p, ms, bits, stackMapping, lastHit) == s
    ensures StepHit(s, p, ms, bits, stackMapping, lastHit) == hit
  {
  }

  /** A word the loop overwrites: the sentinel goes in its place and the remembered mapping stays. */
  lemma ClobberStep(s: seq<u8>, p: nat, ms: seq<MappingInfo>, bits: seq<bv8>, stackMapping: Option<MappingInfo>,
                    lastHit: Option<MappingInfo>)
    requires p + WORD_SIZE <= |s|
    requires Decide(ms, bits, stackMapping, lastHit, LeAt(s, p, WORD_SIZE)) == Verdict(false, lastHit)
    ensures StepStack(s, p, ms, bits, stackMapping, lastHit) == WriteWord(s, p, SENTINEL)
    ensures StepHit(s, p, ms, bits, stackMapping, lastHit) == lastHit
  {
  }

  /**
   * One pass of the word loop of `sanitize_stack` at `sp`: each early
   * return is one of its `continue`s, the fall-through overwrites the word.
   */
  method SanitizeWord(stack: array<u8>, sp: nat, ms: seq<MappingInfo>, bits: seq<bv8>, stackMapping: Option<MappingInfo>,
                      lastHit: Option<MappingInfo>) returns (hit: Option<MappingInfo>)
    requires sp + WORD_SIZE <= stack.Length && |bits| == ARRAY_SIZE
    modifies stack
    ensures stack[..] == StepStack(old(stack[..]), sp, ms, bits, stackMapping, lastHit)
    ensures hit == StepHit(old(stack[..]), sp, ms, bits, stackMapping, lastHit)
    ensures SanitizeFrom(stack[..], sp + WORD_SIZE, ms, bits, stackMapping, hit)
            == SanitizeFrom(old(stack[..]), sp, ms, bits, stackMapping, lastHit)
  {
    ghost var s := stack[..];
    SanitizeFromStep(s, sp, ms, bits, stackMapping, lastHit);
    var addr := LeAt(stack[..], sp, WORD_SIZE);
    hit := lastHit;
    if AsSigned(addr) <= SMALL_INT_MAGNITUDE && AsSigned(addr) >= -SMALL_INT_MAGNITUDE {
      KeepStep(s, sp, ms, bits, stackMapping, lastHit, lastHit);
      return;
    }
    if stackMapping.Some? && ContainsAddress(stackMapping.value, addr) {
      KeepStep(s, sp, ms, bits, stackMapping, lastHit, lastHit);
      return;
    }
    if lastHit.Some? && ContainsAddress(lastHit.value, addr) {
      KeepStep(s, sp, ms, bits, stackMapping, lastHit, lastHit);
      return;
    }
    var code := LookupCode(ms, bits, addr);
    if code.Some? {
      hit := code;
      KeepStep(s, sp, ms, bits, stackMapping, lastHit, hit);
      return;
    }
    ClobberStep(s, sp, ms, bits, stackMapping, lastHit);
    WriteWordAt(stack, sp, SENTINEL);
  }

  /** The word loop of `sanitize_stack`, from the rounded-up offset to the last full word. */
  method SanitizeWords(stack: array<u8>, ms: seq<MappingInfo>, bits: seq<bv8>, stackMapping: Option<MappingInfo>,
                       zeroOffset: nat)
    requires |bits| == ARRAY_SIZE
    modifies stack
    ensures stack[..] == SanitizeFrom(old(stack[..]), zeroOffset, ms, bits, stackMapping, None)
  {
    var sp := zeroOffset;
    var lastHit: Option<MappingInfo> := None;
    ghost var goal := SanitizeFrom(stack[..], sp, ms, bits, stackMapping, lastHit);
    while sp + WORD_SIZE <= stack.Length
      invariant SanitizeFrom(stack[..], sp, ms, bits, stackMapping, lastHit) == goal
      decreases stack.Length - sp
    {
      lastHit := SanitizeWord(stack, sp, ms, bits, stackMapping, lastHit);
      sp := sp + WORD_SIZE;
    }
    SanitizeFromDone(stack[..], sp, ms, bits, stackMapping, lastHit);
  }

  /** `if zero_offset > 0 { stack[..zero_offset].fill(0) }`. */
  method ZeroBelow(stack: array<u8>, zeroOffset: nat)
    requires zeroOffset <= stack.Length
    modifies stack
    ensures stack[..] == ZeroHead(old(stack[..]), zeroOffset)
  {
    ghost var s := stack[..];
    if zeroOffset > 0 {
      ZeroFill(stack, 0, zeroOffset);
      assert s[..0] == [];
    } else {
      assert s == PageVec.Repeat(0, 0) + s[0..];
    }
  }

  /** `if partial > 0 { stack[stack.len() - partial..].fill(0) }`. */
  method ZeroTrailing(stack: array<u8>)
    modifies stack
    ensures stack[..] == ZeroPartial(old(stack[..]))
  {
    ghost var s := stack[..];
    var partial := stack.Length % WORD_SIZE;
    if partial > 0 {
      ZeroFill(stack, stack.Length - partial, stack.Length);
      assert s[stack.Length..] == [];
    } else {
      assert s == s[..stack.Length] + PageVec.Repeat(0, 0);
    }
  }

  /**
   * The body of `sanitize_stack` once the stack mapping is known: the
   * bitmap, the zeroing of the bytes below the rounded-up offset, the word
   * loop and the zeroing of the trailing partial word.
   */
  method SanitizeStackBytes(stack: array<u8>, ms: seq<MappingInfo>, stackMapping: Option<MappingInfo>, offset: nat)
    requires WORD_SIZE <= stack.Length && ZeroOffset(offset) <= stack.Length
    modifies stack
    ensures stack[..] == Sanitized(old(stack[..]), ms, stackMapping, offset)
  {
    var could := CouldHitMapping(ms);
    var bits := could[..];
    var zeroOffset := ZeroOffset(offset);
    ZeroBelow(stack, zeroOffset);
    SanitizeWords(stack, ms, bits, stackMapping, zeroOffset);
    ZeroTrailing(stack);
  }

  // ---------------------------------------------------- the loop as written

  /** The state of the word loop: the stack copy, the stack pointer's offset and `last_hit_mapping`. */
  datatype Sweep = Sweep(s: seq<u8>, sp: nat, lastHit: Option<MappingInfo>)

  /**
   * One pass of the word loop as written: every `continue` leaves `sp`
   * where it was; only an overwritten word advances it.
   */
  function SweepStepAsWritten(ms: seq<MappingInfo>, bits: seq<bv8>, stackMapping: Option<MappingInfo>, st: Sweep): (r: Sweep)
    requires st.sp + WORD_SIZE <= |st.s|
    ensures r.s == StepStack(st.s, st.sp, ms, bits, stackMapping, st.lastHit)
    ensures r.lastHit == StepHit(st.s, st.sp, ms, bits, stackMapping, st.lastHit)
    ensures r.sp == st.sp + WORD_SIZE || (r.sp == st.sp && r.s == st.s)
    ensures Small(LeAt(st.s, st.sp, WORD_SIZE)) ==> r == st
  {
    var v := Decide(ms, bits, stackMapping, st.lastHit, LeAt(st.s, st.sp, WORD_SIZE));
    if v.keep then Sweep(st.s, st.sp, v.lastHit)
    else Sweep(WriteWord(st.s, st.sp, SENTINEL), st.sp + WORD_SIZE, v.lastHit)
  }

  /** `n` passes of the loop as written, stopping early once `sp` passes the last word. */
  function SweepAsWritten(ms: seq<MappingInfo>, bits: seq<bv8>, stackMapping: Option<MappingInfo>, st: Sweep, n: nat): (r: Sweep)
    ensures |r.s| == |st.s| && st.sp <= r.sp
    ensures n == 0 || st.sp + WORD_SIZE > |st.s| ==> r == st
    decreases n
  {
    if n == 0 || st.sp + WORD_SIZE > |st.s| then st
    else SweepAsWritten(ms, bits, stackMapping, SweepStepAsWritten(ms, bits, stackMapping, st), n - 1)
  }

  /**
   * As written, the loop never gets past a small word: however many passes
   * it makes, the state is unchanged and the loop condition still holds.
   */
  lemma {:induction false} SweepAsWrittenSpins(ms: seq<MappingInfo>, bits: seq<bv8>, stackMapping: Option<MappingInfo>, st: Sweep, n: nat)
    requires st.sp + WORD_SIZE <= |st.s| && Small(LeAt(st.s, st.sp, WORD_SIZE))
    ensures SweepAsWritten(ms, bits, stackMapping, st, n) == st
    decreases n
  {
    if n > 0 {
      SweepAsWrittenSpins(ms, bits, stackMapping, st, n - 1);
    }
  }

  /** A one-word stack holding zero: as written the loop spins forever, as intended it keeps the word and stops. */
  lemma ZeroWordStackSpins(ms: seq<MappingInfo>, bits: seq<bv8>, stackMapping: Option<MappingInfo>, n: nat)
    ensures var st := Sweep([0, 0, 0, 0, 0, 0, 0, 0], 0, None);
            SweepAsWritten(ms, bits, stackMapping, st, n).sp + WORD_SIZE <= |st.s|
    ensures SanitizeFrom([0, 0, 0, 0, 0, 0, 0, 0], 0, ms, bits, stackMapping, None) == [0, 0, 0, 0, 0, 0, 0, 0]
  {
    var s: seq<u8> := [0, 0, 0, 0, 0, 0, 0, 0];
    assert LeAt(s, 0, WORD_SIZE) == 0;
    SweepAsWrittenSpins(ms, bits, stackMapping, Sweep(s, 0, None), n);
  }
}
