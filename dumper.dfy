/**
 * The bookkeeping of `PTraceDumper`: the auxiliary vector, the thread list
 * read from `/proc/<pid>/task`, the module list built from
 * `/proc/<pid>/maps`, the suspend/resume state machine, the stack window
 * of a thread and the word-by-word copy out of the crashed process.
 *
 * The kernel is an oracle throughout: the chunks a `read` returned, the
 * directory entries, the lines the maps reader yielded, whether a ptrace
 * attach or detach succeeded, and the words PTRACE_PEEKDATA returned.
 */
module Dumper {
  import opened Wrappers
  import RawVec
  import opened Mapping
  import PageVec
  import opened LittleEndian
  import Sanitize

  datatype DumpError =
    | OpenFailed
    | NoValidAuxvEntries
    | NoValidThreads
    | ThreadsNotSuspended
    | AllThreadsNotResumed

  /** The name given to the kernel's vDSO mapping. */
  const LINUX_GATE_LIBRARY_NAME: string := "linux-gate.so"

  /** One auxiliary-vector entry on the 64-bit target: a `u64` kind and a `u64` value. */
  const AUX_ENTRY_SIZE: nat := 16

  /** The length `read_auxv` resizes the table to: the discriminant of `SysInfoEhdr`. */
  const AUXV_LEN_AS_WRITTEN: nat := 33

  /** A table long enough to be indexed by every kind, `SysInfoEhdr` included. */
  const AUXV_LEN: nat := 34

  /** Up to 32 KiB of a thread's stack are captured. */
  const MAX_STACK_COPY: nat := 32 * 1024

  // ---------------------------------------------------------------------
  // The auxiliary vector
  // ---------------------------------------------------------------------

  /** What one `read` of the auxv file returned: the bytes read, or an error. */
  datatype AuxRead = Chunk(bytes: seq<u8>) | ReadFailed

  /**
   * `ElfAux::from_bytes`: the kind is the first little-endian `u64`
   * truncated to `u32`, the value the second `u64`; unknown kinds give
   * `None`.
   */
  function DecodeAux(entry: seq<u8>): (r: Option<(AtKind, nat)>)
    requires |entry| == AUX_ENTRY_SIZE
    ensures r.Some? ==> AtValue(r.value.0) == LeAt(entry, 0, 8) % 0x1_0000_0000 && r.value.0 != Null
    ensures r.Some? ==> r.value.1 == LeAt(entry, 8, 8) && r.value.1 <= USIZE_MAX
    ensures r.None? <==> AtKindFromInt(LeAt(entry, 0, 8) % 0x1_0000_0000).None?
  {
    var kind := LeAt(entry, 0, 8) % 0x1_0000_0000;
    AtKindRoundTrip(Null, kind);
    LeAtBound(entry, 8, 8);
    match AtKindFromInt(kind)
    case None => None
    case Some(k) => Some((k, LeAt(entry, 8, 8)))
  }

  /** `PageVec::resize(n, None)` on the table. */
  function Resized(table: seq<Option<nat>>, n: nat): (r: seq<Option<nat>>)
    ensures |r| == n
    ensures forall i :: 0 <= i < n ==> r[i] == if i < |table| then table[i] else None
  {
    if |table| >= n then table[..n] else table + PageVec.Repeat(None, n - |table|)
  }

  /** What one read of the loop does: stop, skip an undecodable entry, or store an entry. */
  datatype AuxOutcome = Stop | Skip | Store(entry: (AtKind, nat))

  /** One iteration of the `read_auxv` loop on the result of a read. */
  function ReadStep(c: AuxRead): AuxOutcome {
    match c
    case ReadFailed => Stop
    case Chunk(bytes) =>
      if |bytes| < AUX_ENTRY_SIZE then Stop
      else
        match DecodeAux(bytes[..AUX_ENTRY_SIZE])
        case None => Skip
        case Some(e) => Store(e)
  }

  /**
   * The `read_auxv` loop from a given table: it stops at the first failed
   * or short read and stores every entry that decodes; the flag says
   * whether one did.
   */
  function AuxvLoop(table: seq<Option<nat>>, chunks: seq<AuxRead>): (r: (seq<Option<nat>>, bool))
    requires |table| == AUXV_LEN
    ensures |r.0| == AUXV_LEN
    decreases |chunks|
  {
    if |chunks| == 0 then (table, false)
    else
      match ReadStep(chunks[0])
      case Stop => (table, false)
      case Skip => AuxvLoop(table, chunks[1..])
      case Store(e) =>
        var after := AuxvLoop(table[AtValue(e.0) := Some(e.1)], chunks[1..]);
        (after.0, true)
  }

  /** The entries the loop decodes, in file order, up to the first failed or short read. */
  function AuxEntries(chunks: seq<AuxRead>): (r: seq<(AtKind, nat)>)
    ensures |r| <= |chunks|
  {
    if |chunks| == 0 then []
    else
      match ReadStep(chunks[0])
      case Stop => []
      case Skip => AuxEntries(chunks[1..])
      case Store(e) => [e] + AuxEntries(chunks[1..])
  }

  /** The value of the last entry of kind `k`, if any. */
  function LastOf(entries: seq<(AtKind, nat)>, k: AtKind): (r: Option<nat>)
    ensures r.None? <==> forall i :: 0 <= i < |entries| ==> entries[i].0 != k
    ensures r.Some? ==> exists i :: 0 <= i < |entries| && entries[i] == (k, r.value)
                                     && forall j :: i < j < |entries| ==> entries[j].0 != k
  {
    if |entries| == 0 then None
    else
      match LastOf(entries[1..], k)
      case Some(v) => Some(v)
      case None => if entries[0].0 == k then Some(entries[0].1) else None
  }

  /**
   * After the loop, the slot of every kind holds the value of the last
   * entry of that kind, or what it held before when there was none; the
   * loop reports success exactly when some entry decoded.
   */
  lemma {:induction false} AuxvLastWins(table: seq<Option<nat>>, chunks: seq<AuxRead>, k: AtKind)
    requires |table| == AUXV_LEN
    ensures AuxvLoop(table, chunks).0[AtValue(k)]
            == match LastOf(AuxEntries(chunks), k) case Some(v) => Some(v) case None => table[AtValue(k)]
    ensures AuxvLoop(table, chunks).1 <==> |AuxEntries(chunks)| > 0
    decreases |chunks|
  {
    if |chunks| > 0 {
      match ReadStep(chunks[0])
      case Stop =>
      case Skip =>
        AuxvLastWins(table, chunks[1..], k);
      case Store(e) =>
        AuxvLastWins(table[AtValue(e.0) := Some(e.1)], chunks[1..], k);
        LastOfCons(e, AuxEntries(chunks[1..]), k);
        if e.0 != k {
          AtValueInjective(e.0, k);
        }
    }
  }

  /** `LastOf` on an entry followed by more entries. */
  lemma LastOfCons(e: (AtKind, nat), rest: seq<(AtKind, nat)>, k: AtKind)
    ensures LastOf([e] + rest, k)
            == match LastOf(rest, k) case Some(v) => Some(v) case None => if e.0 == k then Some(e.1) else None
  {
    assert ([e] + rest)[1..] == rest;
  }

  /** Different kinds have different discriminants. */
  lemma AtValueInjective(a: AtKind, b: AtKind)
    requires a != b
    ensures AtValue(a) != AtValue(b)
  {
    AtKindRoundTrip(a, AtValue(a));
    AtKindRoundTrip(b, AtValue(b));
  }

  /** Slot `kind` of the table, or `None` where indexing it panics. */
  function AuxvSlot(table: seq<Option<nat>>, kind: AtKind): (r: Option<Option<nat>>)
    ensures r.Some? <==> AtValue(kind) < |table|
  {
    if AtValue(kind) < |table| then Some(table[AtValue(kind)]) else None
  }

  /**
   * As written, the table is resized to 33 slots, so the `SysInfoEhdr`
   * slot (index 33) is out of bounds: storing a vDSO entry and the read
   * of it in `enumerate_mappings` both panic.
   */
  lemma AuxvAsWrittenMissesVdso(table: seq<Option<nat>>)
    ensures AuxvSlot(Resized(table, AUXV_LEN_AS_WRITTEN), SysInfoEhdr).None?
    ensures forall k :: AtValue(k) < AUXV_LEN_AS_WRITTEN <==> k != SysInfoEhdr
  {
  }

  /** With one more slot, every kind has a slot. */
  lemma AuxvHoldsEveryKind(table: seq<Option<nat>>, k: AtKind)
    ensures AuxvSlot(Resized(table, AUXV_LEN), k).Some?
  {
  }

  // ---------------------------------------------------------------------
  // Threads
  // ---------------------------------------------------------------------

  /** The thread ids among the directory entries (`None`: unreadable entry or a name that is no `u32`). */
  function Tids(entries: seq<Option<nat>>): (r: seq<nat>)
    ensures |r| <= |entries|
  {
    if |entries| == 0 then []
    else Tids(entries[..|entries| - 1]) + (match entries[|entries| - 1] case Some(t) => [t] case None => [])
  }

  /** Equality of thread ids, the relation the enumeration deduplicates by. */
  function SameTid(a: nat, b: nat): bool {
    a == b
  }

  /** The threads `enumerate_threads` records: the ids with consecutive repeats dropped. */
  function ThreadIds(entries: seq<Option<nat>>): (r: seq<nat>)
    ensures |r| <= |entries|
    ensures forall i :: 0 <= i < |r| - 1 ==> r[i] != r[i + 1]
  {
    forall i | 0 <= i < |PageVec.Dedup(Tids(entries), SameTid)| - 1 {
      PageVec.DedupNoAdjacentSameBucket(Tids(entries), |Tids(entries)|, SameTid, i);
    }
    PageVec.Dedup(Tids(entries), SameTid)
  }

  /** The id most recently seen, if any. */
  function LastTid(s: seq<nat>): Option<nat> {
    if |s| == 0 then None else Some(s[|s| - 1])
  }

  /** One more directory entry: an id that differs from the last one seen is appended. */
  lemma ThreadIdsStep(entries: seq<Option<nat>>, i: nat)
    requires i < |entries|
    ensures entries[i].None? ==> Tids(entries[..i + 1]) == Tids(entries[..i])
    ensures entries[i].Some? ==> Tids(entries[..i + 1]) == Tids(entries[..i]) + [entries[i].value]
    ensures ThreadIds(entries[..i + 1])
            == if entries[i].None? || LastTid(Tids(entries[..i])) == entries[i] then ThreadIds(entries[..i])
               else ThreadIds(entries[..i]) + [entries[i].value]
  {
    assert entries[..i + 1][..i] == entries[..i];
    if entries[i].Some? {
      DedupAppend(Tids(entries[..i]), entries[i].value);
    }
  }

  /** Every id as an occupied thread slot. */
  function AsSlots(ids: seq<nat>): (r: seq<Option<nat>>)
    ensures |r| == |ids| && forall i :: 0 <= i < |r| ==> r[i] == Some(ids[i])
  {
    seq(|ids|, i requires 0 <= i < |ids| => Some(ids[i]))
  }

  /** Deduplication only looks at the prefix it covers. */
  lemma {:induction false} DedupPrefixFrame(s: seq<nat>, t: seq<nat>, n: nat)
    requires n <= |s| && n <= |t| && s[..n] == t[..n]
    ensures PageVec.DedupPrefix(s, n, SameTid) == PageVec.DedupPrefix(t, n, SameTid)
  {
    if n > 1 {
      assert s[..n - 1] == t[..n - 1] by {
        assert s[..n - 1] == s[..n][..n - 1];
        assert t[..n - 1] == t[..n][..n - 1];
      }
      assert s[n - 1] == s[..n][n - 1] == t[..n][n - 1] == t[n - 1];
      DedupPrefixFrame(s, t, n - 1);
    }
  }

  /** The last element kept is the last element seen. */
  lemma DedupLast(s: seq<nat>, n: nat)
    requires 0 < n <= |s|
    ensures var d := PageVec.DedupPrefix(s, n, SameTid); d[|d| - 1] == s[n - 1]
  {
  }

  /** One more id is kept exactly when it differs from the one before it. */
  lemma DedupAppend(s: seq<nat>, t: nat)
    ensures PageVec.Dedup(s + [t], SameTid)
            == if |s| > 0 && s[|s| - 1] == t then PageVec.Dedup(s, SameTid) else PageVec.Dedup(s, SameTid) + [t]
  {
    var u := s + [t];
    if |s| > 0 {
      assert u[..|s|] == s[..|s|];
      DedupPrefixFrame(u, s, |s|);
      DedupLast(s, |s|);
    }
  }

  /** Every id of the input survives deduplication. */
  lemma {:induction false} DedupCovers(s: seq<nat>, n: nat, k: nat)
    requires k < n <= |s|
    ensures s[k] in PageVec.DedupPrefix(s, n, SameTid)
  {
    if n > 1 {
      var d := PageVec.DedupPrefix(s, n - 1, SameTid);
      if k < n - 1 {
        DedupCovers(s, n - 1, k);
      } else if SameTid(s[n - 1], d[|d| - 1]) {
        assert s[k] == d[|d| - 1];
      } else {
        assert PageVec.DedupPrefix(s, n, SameTid)[|d|] == s[k];
      }
    }
  }

  /** A list without consecutive repeats is left as it is. */
  lemma {:induction false} DedupIdentity(s: seq<nat>, n: nat)
    requires n <= |s|
    requires forall i :: 0 < i < |s| ==> s[i] != s[i - 1]
    ensures PageVec.DedupPrefix(s, n, SameTid) == s[..n]
  {
    if n > 1 {
      DedupIdentity(s, n - 1);
      assert s[..n] == s[..n - 1] + [s[n - 1]];
    }
  }

  /**
   * The thread list has no two equal neighbours, holds every id the
   * directory listed and nothing else, and drops nothing from a listing
   * that had no consecutive repeats.
   */
  lemma ThreadIdsSpec(entries: seq<Option<nat>>)
    ensures forall i :: 0 < i < |ThreadIds(entries)| ==> ThreadIds(entries)[i] != ThreadIds(entries)[i - 1]
    ensures forall t :: t in ThreadIds(entries) <==> t in Tids(entries)
    ensures (forall i :: 0 < i < |Tids(entries)| ==> Tids(entries)[i] != Tids(entries)[i - 1])
            ==> ThreadIds(entries) == Tids(entries)
  {
    var s := Tids(entries);
    forall i | 0 < i < |ThreadIds(entries)|
      ensures ThreadIds(entries)[i] != ThreadIds(entries)[i - 1]
    {
      PageVec.DedupNoAdjacentSameBucket(s, |s|, SameTid, i - 1);
    }
    forall t
      ensures t in ThreadIds(entries) <==> t in s
    {
      if t in ThreadIds(entries) {
        var k :| 0 <= k < |ThreadIds(entries)| && ThreadIds(entries)[k] == t;
        PageVec.DedupKeepsInputElements(s, |s|, SameTid, k);
      }
      if t in s {
        var k :| 0 <= k < |s| && s[k] == t;
        DedupCovers(s, |s|, k);
      }
    }
    if forall i :: 0 < i < |s| ==> s[i] != s[i - 1] {
      DedupIdentity(s, |s|);
      assert s[..|s|] == s;
    }
  }

  // ---------------------------------------------------------------------
  // Mappings
  // ---------------------------------------------------------------------

  /** Every mapping has the shape the parser gives it. */
  predicate AllShaped(ms: seq<MappingInfo>) {
    forall i :: 0 <= i < |ms| ==> MappingShape(ms[i])
  }

  /** `line.parse::<MappingInfo>().ok()` for every maps line. */
  function ParsedLines(lines: seq<string>): (r: seq<Option<MappingInfo>>)
    ensures |r| == |lines|
    ensures AllShapedOpt(r)
  {
    seq(|lines|, i requires 0 <= i < |lines| =>
      match ParseMapping(lines[i]) case Ok(m) => Some(m) case Err(_) => None)
  }

  /** Every line that parsed has the parser's shape. */
  predicate AllShapedOpt(ps: seq<Option<MappingInfo>>) {
    forall i :: 0 <= i < |ps| && ps[i].Some? ==> MappingShape(ps[i].value)
  }

  /** One parsed line as the loop sees it: renamed `linux-gate.so`, offset 0, when it starts at the vDSO. */
  function Prepare(p: Option<MappingInfo>, gate: Option<nat>): (r: Option<MappingInfo>)
    requires p.Some? ==> MappingShape(p.value)
    ensures r.Some? <==> p.Some?
    ensures r.Some? ==> MappingShape(r.value)
    ensures r.Some? && gate == Some(p.value.startAddr) ==> r.value.name == LINUX_GATE_LIBRARY_NAME && r.value.offset == 0
    ensures r.Some? ==> r.value.startAddr == p.value.startAddr && r.value.size == p.value.size && r.value.hasExec == p.value.hasExec
    ensures r.Some? && gate != Some(p.value.startAddr) ==> r.value == p.value
  {
    match p
    case None => None
    case Some(m) => Some(if gate == Some(m.startAddr) then m.(name := LINUX_GATE_LIBRARY_NAME, offset := 0) else m)
  }

  /** The mappings of the lines that parsed, in order. */
  function Prepared(ps: seq<Option<MappingInfo>>, gate: Option<nat>): (r: seq<MappingInfo>)
    requires AllShapedOpt(ps)
    ensures AllShaped(r) && |r| <= |ps|
  {
    if |ps| == 0 then []
    else
      var rest := Prepared(ps[..|ps| - 1], gate);
      match Prepare(ps[|ps| - 1], gate)
      case None => rest
      case Some(m) => rest + [m]
  }

  /**
   * A new mapping continues the previous one: it starts where the previous
   * ends, has the same name, and the same exec flag or exec where the
   * previous is not.
   */
  predicate Mergeable(last: MappingInfo, m: MappingInfo) {
    && m.startAddr == last.startAddr + last.size
    && m.name == last.name
    && (m.hasExec == last.hasExec || (!last.hasExec && m.hasExec))
  }

  /** The previous mapping extended to the end of the new one. */
  function Merged(last: MappingInfo, m: MappingInfo): (r: MappingInfo)
    requires MappingShape(last) && MappingShape(m)
    ensures MappingShape(r)
    ensures r.startAddr == last.startAddr && r.sysEndAddr == m.sysEndAddr && r.name == last.name
    ensures r.hasExec <==> last.hasExec || m.hasExec
  {
    last.(sysEndAddr := m.sysEndAddr,
          size := RawVec.WrappingSub(m.sysEndAddr, last.startAddr),
          hasExec := last.hasExec || m.hasExec)
  }

  /** One step of the loop: merge into the last mapping, or append. */
  function MergeStep(ms: seq<MappingInfo>, m: MappingInfo): (r: seq<MappingInfo>)
    requires AllShaped(ms) && MappingShape(m)
    ensures AllShaped(r)
    ensures |ms| <= |r| <= |ms| + 1
  {
    if |ms| > 0 && Mergeable(ms[|ms| - 1], m) then ms[..|ms| - 1] + [Merged(ms[|ms| - 1], m)]
    else ms + [m]
  }

  /** The module list after the loop, from the list before it and the parsed lines. */
  function Collect(ms: seq<MappingInfo>, infos: seq<MappingInfo>): (r: seq<MappingInfo>)
    requires AllShaped(ms) && AllShaped(infos)
    ensures AllShaped(r)
    ensures |ms| <= |r| <= |ms| + |infos|
  {
    if |infos| == 0 then ms
    else MergeStep(Collect(ms, infos[..|infos| - 1]), infos[|infos| - 1])
  }

  /** One more maps line: its mapping, if it parsed, goes through one merge step. */
  lemma CollectLineStep(ms: seq<MappingInfo>, ps: seq<Option<MappingInfo>>, i: nat, gate: Option<nat>)
    requires AllShaped(ms) && AllShapedOpt(ps) && i < |ps|
    ensures AllShapedOpt(ps[..i]) && AllShapedOpt(ps[..i + 1])
    ensures Collect(ms, Prepared(ps[..i + 1], gate))
            == match Prepare(ps[i], gate)
               case None => Collect(ms, Prepared(ps[..i], gate))
               case Some(m) => MergeStep(Collect(ms, Prepared(ps[..i], gate)), m)
  {
    assert ps[..i + 1][..i] == ps[..i];
    var before := Prepared(ps[..i], gate);
    match Prepare(ps[i], gate)
    case None =>
    case Some(m) =>
      assert (before + [m])[..|before|] == before;
  }

  /** A mapping whose end does not lie below its start, so its size is the plain difference. */
  predicate Proper(m: MappingInfo) {
    MappingShape(m) && m.startAddr <= m.sysEndAddr
  }

  /** Every mapping of the list is proper. */
  predicate AllProper(ms: seq<MappingInfo>) {
    forall i :: 0 <= i < |ms| ==> Proper(ms[i])
  }

  /** Some mapping of the list contains the address. */
  predicate Covered(ms: seq<MappingInfo>, a: nat) {
    exists i :: 0 <= i < |ms| && ContainsAddress(ms[i], a)
  }

  /** A list with one more mapping covers the old addresses plus that mapping's. */
  lemma CoveredSnoc(ms: seq<MappingInfo>, m: MappingInfo, a: nat)
    ensures Covered(ms + [m], a) <==> Covered(ms, a) || ContainsAddress(m, a)
  {
    var r := ms + [m];
    if Covered(r, a) {
      var i :| 0 <= i < |r| && ContainsAddress(r[i], a);
      if i < |ms| {
        assert r[i] == ms[i];
      }
    }
    if Covered(ms, a) {
      var i :| 0 <= i < |ms| && ContainsAddress(ms[i], a);
      assert r[i] == ms[i];
    }
    if ContainsAddress(m, a) {
      assert r[|ms|] == m;
    }
  }

  /** Merging a proper mapping into the one it continues covers exactly the addresses of both. */
  lemma MergedCoversBoth(last: MappingInfo, m: MappingInfo, a: nat)
    requires Proper(last) && Proper(m) && Mergeable(last, m)
    ensures Proper(Merged(last, m))
    ensures ContainsAddress(Merged(last, m), a) <==> ContainsAddress(last, a) || ContainsAddress(m, a)
  {
  }

  /** A merge step keeps the list proper and covers the old addresses plus the new mapping's. */
  lemma MergeStepCovers(ms: seq<MappingInfo>, m: MappingInfo, a: nat)
    requires AllShaped(ms) && Proper(m) && AllProper(ms)
    ensures AllProper(MergeStep(ms, m))
    ensures Covered(MergeStep(ms, m), a) <==> Covered(ms, a) || ContainsAddress(m, a)
  {
    if |ms| > 0 && Mergeable(ms[|ms| - 1], m) {
      var init := ms[..|ms| - 1];
      var last := ms[|ms| - 1];
      MergedCoversBoth(last, m, a);
      CoveredSnoc(init, last, a);
      CoveredSnoc(init, Merged(last, m), a);
      assert init + [last] == ms;
    } else {
      CoveredSnoc(ms, m, a);
    }
  }

  /**
   * Merging neither loses nor invents an address: over proper mappings,
   * the collected list covers exactly what the old list and the new
   * mappings cover.
   */
  lemma {:induction false} CollectCovers(ms: seq<MappingInfo>, infos: seq<MappingInfo>, a: nat)
    requires AllShaped(ms) && AllShaped(infos)
    requires AllProper(ms) && AllProper(infos)
    ensures AllProper(Collect(ms, infos))
    ensures Covered(Collect(ms, infos), a) <==> Covered(ms, a) || Covered(infos, a)
  {
    if |infos| > 0 {
      var init := infos[..|infos| - 1];
      var m := infos[|infos| - 1];
      assert AllShaped(init) && AllProper(init);
      CollectCovers(ms, init, a);
      MergeStepCovers(Collect(ms, init), m, a);
      CoveredSnoc(init, m, a);
      assert init + [m] == infos;
    }
  }

  /** `remove(i)` followed by `insert(0, _)`. */
  function MoveToFront(ms: seq<MappingInfo>, i: nat): (r: seq<MappingInfo>)
    requires i < |ms|
    ensures |r| == |ms|
  {
    [ms[i]] + ms[..i] + ms[i + 1..]
  }

  /** The entry-point step: the first mapping containing the entry point is moved to index 0. */
  function EntryFirst(ms: seq<MappingInfo>, entry: Option<nat>): (r: seq<MappingInfo>)
    ensures |r| == |ms|
  {
    if entry.None? then ms
    else
      match FindMappingNoBias(ms, entry.value)
      case None => ms
      case Some(i) => if i == 0 then ms else MoveToFront(ms, i)
  }

  /** The entry-point step only reorders the list. */
  lemma EntryFirstPermutes(ms: seq<MappingInfo>, ep: nat)
    ensures multiset(EntryFirst(ms, Some(ep))) == multiset(ms)
  {
    match FindMappingNoBias(ms, ep)
    case None =>
    case Some(i) =>
      if i > 0 {
        assert ms == ms[..i] + [ms[i]] + ms[i + 1..];
      }
  }

  /**
   * When some mapping contains the entry point, the first such mapping is
   * at index 0 afterwards and the others keep their relative order;
   * otherwise nothing moves.
   */
  lemma EntryFirstFront(ms: seq<MappingInfo>, ep: nat)
    ensures Covered(ms, ep) ==>
              var i := FindMappingNoBias(ms, ep).value;
              && EntryFirst(ms, Some(ep))[0] == ms[i]
              && FindMappingNoBias(EntryFirst(ms, Some(ep)), ep) == Some(0)
              && EntryFirst(ms, Some(ep))[1..] == ms[..i] + ms[i + 1..]
    ensures !Covered(ms, ep) ==> EntryFirst(ms, Some(ep)) == ms
  {
    match FindMappingNoBias(ms, ep)
    case None =>
    case Some(i) =>
      var r := EntryFirst(ms, Some(ep));
      if i > 0 {
        assert r[1..] == ms[..i] + ms[i + 1..];
      } else {
        assert ms[1..] == ms[..0] + ms[0 + 1..];
      }
      assert ContainsAddress(r[0], ep);
  }

  // ---------------------------------------------------------------------
  // Suspending and resuming
  // ---------------------------------------------------------------------

  /**
   * The result of one `waitpid` call in `suspend_thread`: it returned a
   * pid, it failed with `EINTR`, or it failed with some other error.
   */
  datatype WaitResult = Waited | Interrupted | Failed

  /**
   * The `waitpid` retry loop of `suspend_thread` as written, over the
   * outcomes of its successive calls: `EINTR` detaches and gives up, any
   * other error calls `waitpid` again. `None` means the outcomes ran out
   * with the loop still going.
   */
  function WaitLoopAsWritten(waits: seq<WaitResult>): (r: Option<bool>)
    ensures |waits| > 0 && waits[0] == Waited ==> r == Some(true)
    ensures |waits| > 0 && waits[0] == Interrupted ==> r == Some(false)
    ensures |waits| == 0 ==> r.None?
  {
    if |waits| == 0 then None
    else match waits[0]
      case Waited => Some(true)
      case Interrupted => Some(false)
      case Failed => WaitLoopAsWritten(waits[1..])
  }

  /**
   * As written, a `waitpid` error other than `EINTR` that keeps coming
   * back (`ECHILD` for a thread that is not a child) never ends the loop,
   * however many calls are made.
   */
  lemma {:induction false} WaitAsWrittenSpins(n: nat)
    ensures WaitLoopAsWritten(seq(n, _ => Failed)) == None
  {
    if n > 0 {
      WaitAsWrittenSpins(n - 1);
      assert seq(n, _ => Failed)[1..] == seq(n - 1, _ => Failed);
    }
  }

  /**
   * The retry loop as evidently intended (the loop Breakpad's C++ dumper
   * has): `EINTR` calls `waitpid` again, any other error detaches and
   * gives up. `None` means the outcomes ran out with the loop still going.
   */
  function WaitLoop(waits: seq<WaitResult>): (r: Option<bool>)
    ensures |waits| > 0 && waits[0] == Waited ==> r == Some(true)
    ensures |waits| > 0 && waits[0] == Failed ==> r == Some(false)
    ensures |waits| == 0 ==> r.None?
  {
    if |waits| == 0 then None
    else match waits[0]
      case Waited => Some(true)
      case Failed => Some(false)
      case Interrupted => WaitLoop(waits[1..])
  }

  /**
   * The intended loop ends at the first outcome that is not `EINTR`, and
   * succeeds exactly when that outcome is a returned pid.
   */
  lemma {:induction false} WaitLoopStops(waits: seq<WaitResult>, k: nat)
    requires k < |waits| && waits[k] != Interrupted
    requires forall j :: 0 <= j < k ==> waits[j] == Interrupted
    ensures WaitLoop(waits) == Some(waits[k] == Waited)
  {
    if k > 0 {
      WaitLoopStops(waits[1..], k - 1);
    }
  }

  /** The intended loop keeps going only while every outcome is `EINTR`. */
  lemma {:induction false} WaitLoopKeepsGoing(waits: seq<WaitResult>)
    requires forall j :: 0 <= j < |waits| ==> waits[j] == Interrupted
    ensures WaitLoop(waits) == None
  {
    if |waits| > 0 {
      WaitLoopKeepsGoing(waits[1..]);
    }
  }

  /** The two loops part on an `EINTR` followed by a successful wait. */
  lemma WaitLoopsDiffer()
    ensures WaitLoopAsWritten([Interrupted, Waited]) == Some(false)
    ensures WaitLoop([Interrupted, Waited]) == Some(true)
  {
  }

  /**
   * What the system calls of one `suspend_thread` return: whether
   * `PTRACE_ATTACH` worked, the successive `waitpid` outcomes, and the
   * stack pointer `PTRACE_GETREGS` reads (`None` when it fails).
   */
  datatype Attempt = Attempt(attachOk: bool, waits: seq<WaitResult>, sp: Option<nat>)

  /**
   * `suspend_thread`, with the intended retry loop: the thread counts as
   * suspended when the attach works, the wait succeeds and the thread's
   * stack pointer is readable and non-null. Outcomes that run out with the
   * loop still going count as a failure.
   */
  function SuspendThread(a: Attempt): (r: bool)
    ensures r <==> a.attachOk && WaitLoop(a.waits) == Some(true) && a.sp.Some? && a.sp.value != 0
  {
    if !a.attachOk then false
    else match WaitLoop(a.waits)
      case None => false
      case Some(waited) =>
        if !waited then false
        else a.sp.Some? && a.sp.value != 0
  }

  /** The per-thread results of the attach pass. */
  function Suspended(attempts: seq<Attempt>): (r: seq<bool>)
    ensures |r| == |attempts|
    ensures forall i :: 0 <= i < |attempts| ==> r[i] == SuspendThread(attempts[i])
  {
    seq(|attempts|, i requires 0 <= i < |attempts| => SuspendThread(attempts[i]))
  }

  /** The thread slots after the attach pass: a slot whose attach failed is emptied. */
  function SuspendedSlots(threads: seq<Option<nat>>, attached: seq<bool>): (r: seq<Option<nat>>)
    requires |attached| == |threads|
    ensures |r| == |threads|
  {
    seq(|threads|, i requires 0 <= i < |threads| => if threads[i].Some? && !attached[i] then None else threads[i])
  }

  /** Exactly the threads that were listed and attached survive, with their ids. */
  lemma SuspendedSlotsSpec(threads: seq<Option<nat>>, attached: seq<bool>, i: nat)
    requires |attached| == |threads| && i < |threads|
    ensures SuspendedSlots(threads, attached)[i].Some? <==> threads[i].Some? && attached[i]
    ensures SuspendedSlots(threads, attached)[i].Some? ==> SuspendedSlots(threads, attached)[i] == threads[i]
  {
  }

  /** Some slot still holds a thread. */
  predicate AnyThread(threads: seq<Option<nat>>) {
    exists i :: 0 <= i < |threads| && threads[i].Some?
  }

  // ---------------------------------------------------------------------
  // Stack window
  // ---------------------------------------------------------------------

  function Min(a: nat, b: nat): nat {
    if a <= b then a else b
  }

  /**
   * `get_stack_info` as written: the stack pointer rounded down to its
   * page, and a length of `size - stack_ptr - start` in wrapping `usize`
   * arithmetic, capped at 32 KiB.
   */
  function StackInfoAsWritten(mappings: seq<MappingInfo>, stackPointer: nat, pageSize: nat): (r: Option<(nat, nat)>)
    requires pageSize > 0 && stackPointer <= USIZE_MAX && AllShaped(mappings)
    ensures r.Some? <==> StackInfo(mappings, stackPointer, pageSize).Some?
    ensures r.Some? ==> r.value.0 == StackInfo(mappings, stackPointer, pageSize).value.0 && r.value.1 <= MAX_STACK_COPY
  {
    var sp := stackPointer - stackPointer % pageSize;
    match FindMappingNoBias(mappings, sp)
    case None => None
    case Some(i) =>
      var m := mappings[i];
      Some((sp, Min(RawVec.WrappingSub(RawVec.WrappingSub(m.size, sp), m.startAddr), MAX_STACK_COPY)))
  }

  /** `get_stack_info` with the length meant: what is left of the mapping above the rounded pointer. */
  function StackInfo(mappings: seq<MappingInfo>, stackPointer: nat, pageSize: nat): (r: Option<(nat, nat)>)
    requires pageSize > 0
    ensures r.Some? ==> r.value.0 == stackPointer - stackPointer % pageSize
  {
    var sp := stackPointer - stackPointer % pageSize;
    match FindMappingNoBias(mappings, sp)
    case None => None
    case Some(i) =>
      var m := mappings[i];
      Some((sp, Min(m.startAddr + m.size - sp, MAX_STACK_COPY)))
  }

  /**
   * The window starts in the first mapping containing the rounded stack
   * pointer, is never empty, never runs past that mapping's end and takes
   * as much of it as the 32 KiB cap allows; no mapping containing the
   * pointer means no window.
   */
  lemma StackInfoInside(mappings: seq<MappingInfo>, stackPointer: nat, pageSize: nat)
    requires pageSize > 0
    ensures var sp := stackPointer - stackPointer % pageSize;
            match StackInfo(mappings, stackPointer, pageSize)
            case None => !Covered(mappings, sp)
            case Some(w) =>
              var m := mappings[FindMappingNoBias(mappings, sp).value];
              && ContainsAddress(m, w.0)
              && 0 < w.1 <= MAX_STACK_COPY
              && w.0 + w.1 <= m.startAddr + m.size
              && (w.0 + w.1 < m.startAddr + m.size ==> w.1 == MAX_STACK_COPY)
  {
  }

  /** The stack mapping of the example: 0x21000 bytes at 0x7ff000000000. */
  const EXAMPLE_STACK: MappingInfo :=
    MappingInfo(0x7ff0_0000_0000, 0x21000, 0x7ff0_0000_0000, 0x7ff0_0002_1000, 0, false, "[stack]")

  /**
   * With the stack pointer in the last page of that mapping, the source
   * wraps around to an enormous length and captures 32 KiB, running
   * 0x7000 bytes past the mapping's end; the intended window is the
   * remaining 0x1000 bytes.
   */
  lemma StackInfoOverruns()
    ensures StackInfoAsWritten([EXAMPLE_STACK], 0x7ff0_0002_0010, 4096) == Some((0x7ff0_0002_0000, 0x8000))
    ensures StackInfo([EXAMPLE_STACK], 0x7ff0_0002_0010, 4096) == Some((0x7ff0_0002_0000, 0x1000))
    ensures 0x7ff0_0002_0000 + 0x8000 > EXAMPLE_STACK.startAddr + EXAMPLE_STACK.size
  {
    assert ContainsAddress(EXAMPLE_STACK, 0x7ff0_0002_0000);
  }

  // ---------------------------------------------------------------------
  // Copying out of the crashed process
  // ---------------------------------------------------------------------

  /**
   * The bytes a word-by-word copy of `n` bytes should produce from the
   * words PTRACE_PEEKDATA returned (`None`: the peek failed, the word
   * counts as zero): byte `k` is byte `k mod 8` of word `k / 8`.
   */
  function PeekedBytes(words: seq<Option<nat>>, n: nat): (r: seq<u8>)
    requires n <= WORD_SIZE * |words|
    ensures |r| == n
  {
    seq(n, k requires 0 <= k < n => match words[k / WORD_SIZE] case None => 0 case Some(w) => ByteOf(w, k % WORD_SIZE))
  }

  /** The words the process holds at `mem[8i..8i+8]`, as a successful peek of each returns them. */
  function WordsOf(mem: seq<u8>, count: nat): (r: seq<Option<nat>>)
    requires WORD_SIZE * count <= |mem|
    ensures |r| == count
  {
    seq(count, i requires 0 <= i < count => Some(LeAt(mem, WORD_SIZE * i, WORD_SIZE)))
  }

  /** When every peek succeeds, the copy reproduces the process's memory. */
  lemma PeekedBytesOfMemory(mem: seq<u8>, count: nat, n: nat)
    requires n <= WORD_SIZE * count <= |mem|
    ensures PeekedBytes(WordsOf(mem, count), n) == mem[..n]
  {
    forall k | 0 <= k < n
      ensures PeekedBytes(WordsOf(mem, count), n)[k] == mem[k]
    {
      var i := k / WORD_SIZE;
      ByteOfLeAt(mem, WORD_SIZE * i, WORD_SIZE, k % WORD_SIZE);
      assert WORD_SIZE * i + k % WORD_SIZE == k;
    }
  }

  /**
   * The libc `ptrace` wrapper returns the peeked word and never writes
   * through its data argument, so the word the source copies stays zero:
   * memory whose first byte is not zero is not what the as-written copy
   * produces.
   */
  lemma CopyAsWrittenLosesMemory(mem: seq<u8>, count: nat, n: nat)
    requires 0 < n <= WORD_SIZE * count <= |mem| && mem[0] != 0
    ensures PeekedBytes(WordsOf(mem, count), n) != PageVec.Repeat(0 as u8, n)
  {
    PeekedBytesOfMemory(mem, count, n);
    assert PeekedBytes(WordsOf(mem, count), n)[0] == mem[0];
  }

  /** The number of words needed for `n` bytes. */
  function WordCount(n: nat): nat {
    (n + WORD_SIZE - 1) / WORD_SIZE
  }

  /**
   * `copy_from_process` as written: `word` starts at zero and only the
   * failure branch assigns it, so every chunk copied is zero.
   * `peekFailed[i]` says whether the i-th peek returned -1.
   */
  method CopyFromProcessAsWritten(dest: array<u8>, n: nat, peekFailed: seq<bool>)
    requires n <= dest.Length && |peekFailed| == WordCount(n)
    modifies dest
    ensures dest[..n] == PageVec.Repeat(0 as u8, n)
    ensures dest[n..] == old(dest[n..])
  {
    var word: nat := 0;
    var copied := 0;
    var i := 0;
    while copied < n
      invariant copied <= n && copied <= WORD_SIZE * i && i <= |peekFailed|
      invariant copied < n ==> copied == WORD_SIZE * i
      invariant word == 0
      invariant forall k :: 0 <= k < copied ==> dest[k] == 0
      invariant forall k :: n <= k < dest.Length ==> dest[k] == old(dest[k])
    {
      var len := if n - copied > WORD_SIZE then WORD_SIZE else n - copied;
      if peekFailed[i] {
        word := 0;
      }
      var j := 0;
      while j < len
        invariant j <= len
        invariant forall k :: 0 <= k < copied + j ==> dest[k] == 0
        invariant forall k :: n <= k < dest.Length ==> dest[k] == old(dest[k])
      {
        ByteOfZero(j);
        dest[copied + j] := ByteOf(word, j);
        j := j + 1;
      }
      copied := copied + len;
      i := i + 1;
    }
    assert dest[..n] == PageVec.Repeat(0 as u8, n);
  }

  /**
   * `copy_from_process` with the peeked word used: byte `k` of the
   * destination is byte `k mod 8` of the `k / 8`-th word, zero where that
   * peek failed; nothing past `n` is touched.
   */
  method CopyFromProcess(dest: array<u8>, n: nat, words: seq<Option<nat>>)
    requires n <= dest.Length && |words| == WordCount(n)
    modifies dest
    ensures dest[..n] == PeekedBytes(words, n)
    ensures dest[n..] == old(dest[n..])
  {
    var copied := 0;
    var i := 0;
    while copied < n
      invariant copied <= n && copied <= WORD_SIZE * i && i <= |words|
      invariant copied < n ==> copied == WORD_SIZE * i
      invariant forall k :: 0 <= k < copied ==> dest[k] == PeekedBytes(words, n)[k]
      invariant forall k :: n <= k < dest.Length ==> dest[k] == old(dest[k])
    {
      var len := if n - copied > WORD_SIZE then WORD_SIZE else n - copied;
      var word := match words[i] case None => 0 case Some(w) => w;
      var j := 0;
      while j < len
        invariant j <= len
        invariant forall k :: 0 <= k < copied + j ==> dest[k] == PeekedBytes(words, n)[k]
        invariant forall k :: n <= k < dest.Length ==> dest[k] == old(dest[k])
      {
        assert (copied + j) / WORD_SIZE == i && (copied + j) % WORD_SIZE == j;
        ByteOfZero(j);
        dest[copied + j] := ByteOf(word, j);
        j := j + 1;
      }
      copied := copied + len;
      i := i + 1;
    }
  }

  /**
   * The loop of `read_auxv`: reads 16-byte entries until a failed or short
   * read, storing each decoded entry in the slot of its kind.
   */
  method StoreAuxEntries(table: seq<Option<nat>>, chunks: seq<AuxRead>) returns (t: seq<Option<nat>>, hasValidEntry: bool)
    requires |table| == AUXV_LEN
    ensures (t, hasValidEntry) == AuxvLoop(table, chunks)
  {
    t := table;
    hasValidEntry := false;
    var i := 0;
    while i < |chunks|
      invariant i <= |chunks| && |t| == AUXV_LEN
      invariant AuxvLoop(table, chunks).0 == AuxvLoop(t, chunks[i..]).0
      invariant AuxvLoop(table, chunks).1 == (hasValidEntry || AuxvLoop(t, chunks[i..]).1)
    {
      assert chunks[i..][1..] == chunks[i + 1..];
      match chunks[i]
      case ReadFailed =>
        break;
      case Chunk(bytes) =>
        if |bytes| < AUX_ENTRY_SIZE {
          break;
        }
        var e := DecodeAux(bytes[..AUX_ENTRY_SIZE]);
        if e.Some? {
          hasValidEntry := true;
          t := t[AtValue(e.value.0) := Some(e.value.1)];
        }
      i := i + 1;
    }
    if i == |chunks| {
      assert chunks[i..] == [];
    }
  }

  /**
   * The loop of `enumerate_threads` over the directory entries: an id is
   * pushed unless it equals the id pushed just before it.
   */
  method DirThreads(entries: seq<Option<nat>>) returns (ts: seq<Option<nat>>)
    ensures ts == AsSlots(ThreadIds(entries))
  {
    ts := [];
    var lastTid: Option<nat> := None;
    var i := 0;
    while i < |entries|
      invariant i <= |entries|
      invariant ts == AsSlots(ThreadIds(entries[..i]))
      invariant lastTid == LastTid(Tids(entries[..i]))
    {
      ThreadIdsStep(entries, i);
      if entries[i].Some? {
        var tid := entries[i].value;
        if Some(tid) != lastTid {
          lastTid := Some(tid);
          ts := ts + [Some(tid)];
        }
      }
      i := i + 1;
    }
    assert entries[..i] == entries;
  }

  /**
   * The loop of `enumerate_mappings` over the maps lines, given what
   * parsing each line gave: each mapping is renamed if it starts at
   * `linuxGateLoc`, then merged into the last mapping when it continues
   * it, or appended.
   */
  method MergeLines(mappings: seq<MappingInfo>, parsed: seq<Option<MappingInfo>>, linuxGateLoc: Option<nat>)
    returns (ms: seq<MappingInfo>)
    requires AllShaped(mappings) && AllShapedOpt(parsed)
    ensures ms == Collect(mappings, Prepared(parsed, linuxGateLoc))
    ensures AllShaped(ms)
  {
    ms := mappings;
    var i := 0;
    while i < |parsed|
      invariant i <= |parsed| && AllShapedOpt(parsed[..i])
      invariant ms == Collect(mappings, Prepared(parsed[..i], linuxGateLoc))
    {
      CollectLineStep(mappings, parsed, i, linuxGateLoc);
      var info := Prepare(parsed[i], linuxGateLoc);
      if info.Some? {
        ms := MergeStep(ms, info.value);
      }
      i := i + 1;
    }
    assert parsed[..i] == parsed;
  }

  /**
   * The end of `enumerate_mappings`: when the entry point is known and a
   * mapping other than the first contains it, that mapping is removed and
   * inserted at index 0.
   */
  method MoveEntryFirst(ms: seq<MappingInfo>, entryPointLoc: Option<nat>) returns (r: seq<MappingInfo>)
    requires AllShaped(ms)
    ensures r == EntryFirst(ms, entryPointLoc)
    ensures AllShaped(r)
  {
    r := ms;
    if entryPointLoc.Some? {
      var found := FindMappingNoBias(ms, entryPointLoc.value);
      if found.Some? && found.value != 0 {
        var entry := r[found.value];
        r := r[..found.value] + r[found.value + 1..];
        r := [entry] + r;
      }
    }
  }

  // ---------------------------------------------------------------------
  // The dumper
  // ---------------------------------------------------------------------

  /** `PTraceDumper`: the crash-time view of the process. */
  class PTraceDumper {
    /** Thread ids; `None` once a thread could not be suspended. */
    var threads: seq<Option<nat>>
    /** The module list. */
    var mappings: seq<MappingInfo>
    /** The auxiliary vector, indexed by kind. */
    var auxv: seq<Option<nat>>
    var threadsSuspended: bool

    /** Every mapping came out of the parser (possibly merged). */
    predicate Valid()
      reads this
    {
      AllShaped(mappings)
    }

    /** `new`: nothing read yet, threads running. */
    constructor ()
      ensures Valid()
      ensures threads == [] && mappings == [] && auxv == [] && !threadsSuspended
    {
      threads := [];
      mappings := [];
      auxv := [];
      threadsSuspended := false;
    }

    /**
     * `read_auxv`: `None` when the file did not open. Otherwise the table
     * is resized and every decoded entry stored, until a failed or short
     * read; the call fails when no entry decoded.
     */
    method ReadAuxv(file: Option<seq<AuxRead>>) returns (r: Result<(), DumpError>)
      requires Valid()
      modifies this
      ensures Valid()
      ensures threads == old(threads) && mappings == old(mappings) && threadsSuspended == old(threadsSuspended)
      ensures file.None? ==> r == Err(OpenFailed) && auxv == old(auxv)
      ensures file.Some? ==>
                var loop := AuxvLoop(Resized(old(auxv), AUXV_LEN), file.value);
                && auxv == loop.0
                && r == if loop.1 then Ok(()) else Err(NoValidAuxvEntries)
    {
      if file.None? {
        return Err(OpenFailed);
      }
      var table, hasValidEntry := StoreAuxEntries(Resized(auxv, AUXV_LEN), file.value);
      auxv := table;
      if hasValidEntry {
        r := Ok(());
      } else {
        r := Err(NoValidAuxvEntries);
      }
    }

    /**
     * `enumerate_threads`: `None` when the directory did not open.
     * Otherwise every entry naming a thread id is appended, unless it
     * repeats the id appended just before it.
     */
    method EnumerateThreads(dir: Option<seq<Option<nat>>>) returns (r: Result<(), DumpError>)
      requires Valid()
      modifies this
      ensures Valid()
      ensures mappings == old(mappings) && auxv == old(auxv) && threadsSuspended == old(threadsSuspended)
      ensures dir.None? ==> r == Err(OpenFailed) && threads == old(threads)
      ensures dir.Some? ==> r == Ok(()) && threads == old(threads) + AsSlots(ThreadIds(dir.value))
    {
      if dir.None? {
        return Err(OpenFailed);
      }
      var ids := DirThreads(dir.value);
      threads := threads + ids;
      return Ok(());
    }

    /**
     * `enumerate_mappings`: `None` when the maps file did not open.
     * Otherwise each line that parses is renamed if it is the vDSO, merged
     * into the previous mapping when it continues it or appended, and then
     * the mapping holding the entry point is moved to the front.
     */
    method EnumerateMappings(maps: Option<seq<string>>) returns (r: Result<(), DumpError>)
      requires Valid() && |auxv| == AUXV_LEN
      modifies this
      ensures Valid()
      ensures threads == old(threads) && auxv == old(auxv) && threadsSuspended == old(threadsSuspended)
      ensures maps.None? ==> r == Err(OpenFailed) && mappings == old(mappings)
      ensures maps.Some? ==>
                && r == Ok(())
                && mappings == EntryFirst(Collect(old(mappings), Prepared(ParsedLines(maps.value), auxv[AtValue(SysInfoEhdr)])),
                                          auxv[AtValue(Entry)])
    {
      if maps.None? {
        return Err(OpenFailed);
      }
      var parsed := ParsedLines(maps.value);
      var merged := MergeLines(mappings, parsed, auxv[AtValue(SysInfoEhdr)]);
      var ms := MoveEntryFirst(merged, auxv[AtValue(Entry)]);
      mappings := ms;
      return Ok(());
    }

    /**
     * `find_mapping_no_bias`: the first mapping of the module list that
     * contains the address.
     */
    function FindMapping(address: nat): (r: Option<MappingInfo>)
      reads this
      ensures r.Some? <==> Covered(mappings, address)
      ensures r.Some? ==> ContainsAddress(r.value, address) && r.value in mappings
    {
      match FindMappingNoBias(mappings, address)
      case None => None
      case Some(i) => Some(mappings[i])
    }

    /**
     * `sanitize_stack`: build the bitmap of executable regions, zero the
     * bytes below the rounded-up offset, sweep the full words from there
     * and zero the trailing partial word.
     */
    method SanitizeStack(stack: array<u8>, originalStack: nat, offset: nat)
      requires WORD_SIZE <= stack.Length && Sanitize.ZeroOffset(offset) <= stack.Length
      modifies stack
      ensures stack[..] == Sanitize.Sanitized(old(stack[..]), mappings, FindMapping(originalStack), offset)
    {
      var stackMapping := FindMapping(originalStack);
      Sanitize.SanitizeStackBytes(stack, mappings, stackMapping, offset);
    }

    /**
     * `suspend_threads`: nothing to do when already suspended. Otherwise
     * `suspend_thread` is tried on each listed thread (`attempts[i]` holds
     * what its system calls return), a thread that could not be suspended
     * is dropped, and the threads count as suspended; the call fails when
     * none is left.
     */
    method SuspendThreads(attempts: seq<Attempt>) returns (r: Result<(), DumpError>)
      requires |attempts| == |threads|
      modifies this
      ensures mappings == old(mappings) && auxv == old(auxv)
      ensures old(threadsSuspended) ==> r == Ok(()) && threads == old(threads) && threadsSuspended
      ensures !old(threadsSuspended) ==>
                && threadsSuspended
                && threads == SuspendedSlots(old(threads), Suspended(attempts))
                && r == if AnyThread(threads) then Ok(()) else Err(NoValidThreads)
    {
      if threadsSuspended {
        return Ok(());
      }
      ghost var attached := Suspended(attempts);
      var i := 0;
      while i < |threads|
        invariant i <= |threads| == |attempts| == |old(threads)|
        invariant forall k :: 0 <= k < i ==> threads[k] == SuspendedSlots(old(threads), attached)[k]
        invariant forall k :: i <= k < |threads| ==> threads[k] == old(threads)[k]
        invariant mappings == old(mappings) && auxv == old(auxv) && !threadsSuspended
      {
        if threads[i].Some? && !SuspendThread(attempts[i]) {
          threads := threads[i := None];
        }
        i := i + 1;
      }
      threadsSuspended := true;
      var any := false;
      var j := 0;
      while j < |threads|
        invariant j <= |threads|
        invariant any <==> exists k :: 0 <= k < j && threads[k].Some?
      {
        any := any || threads[j].Some?;
        j := j + 1;
      }
      if any {
        r := Ok(());
      } else {
        r := Err(NoValidThreads);
      }
    }

    /**
     * `resume_threads`: fails when the threads are not suspended.
     * Otherwise every listed thread is detached (`detached[i]` says whether
     * that worked), the threads no longer count as suspended, and the call
     * fails when some detach did.
     */
    method ResumeThreads(detached: seq<bool>) returns (r: Result<(), DumpError>)
      requires |detached| == |threads|
      modifies this
      ensures threads == old(threads) && mappings == old(mappings) && auxv == old(auxv)
      ensures !old(threadsSuspended) ==> r == Err(ThreadsNotSuspended) && !threadsSuspended
      ensures old(threadsSuspended) ==>
                && !threadsSuspended
                && r == if forall i :: 0 <= i < |threads| && threads[i].Some? ==> detached[i]
                        then Ok(()) else Err(AllThreadsNotResumed)
    {
      if !threadsSuspended {
        return Err(ThreadsNotSuspended);
      }
      var allThreadsResumed := true;
      var i := 0;
      while i < |threads|
        invariant i <= |threads|
        invariant allThreadsResumed <==> forall k :: 0 <= k < i && threads[k].Some? ==> detached[k]
      {
        if threads[i].Some? {
          allThreadsResumed := allThreadsResumed && detached[i];
        }
        i := i + 1;
      }
      threadsSuspended := false;
      if allThreadsResumed {
        r := Ok(());
      } else {
        r := Err(AllThreadsNotResumed);
      }
    }
  }
}
