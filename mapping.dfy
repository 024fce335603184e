/**
 * The mapping side of the process dumper: the auxiliary-vector entry kinds,
 * one parsed line of `/proc/<pid>/maps` (in the format of proc(5)), and the
 * address lookups over the parsed mappings.
 */
module Mapping {
  import opened Wrappers
  import RawVec

  /** The `AT_*` kinds of auxiliary-vector entries the dumper understands. */
  datatype AtKind =
    | Null | ExecFd | ProgramHeaders | PhEntrySize | PhNum | PageSize | Base | Flags | Entry
    | NotElf | Uid | EUid | Gid | EGid | Platform | HardwareCapabilities | ClockTick
    | FpuControlWord | DCacheBlockSize | ICacheBlockSize | UCacheBlockSize | Secure
    | BasePlatform | Random | HardwareCaps2 | ExecPath | SysInfo | SysInfoEhdr

  /** The discriminant of each kind. */
  function AtValue(k: AtKind): (v: nat)
    ensures v <= 33
  {
    match k
    case Null => 0
    case ExecFd => 2
    case ProgramHeaders => 3
    case PhEntrySize => 4
    case PhNum => 5
    case PageSize => 6
    case Base => 7
    case Flags => 8
    case Entry => 9
    case NotElf => 10
    case Uid => 11
    case EUid => 12
    case Gid => 13
    case EGid => 14
    case Platform => 15
    case HardwareCapabilities => 16
    case ClockTick => 17
    case FpuControlWord => 18
    case DCacheBlockSize => 19
    case ICacheBlockSize => 20
    case UCacheBlockSize => 21
    case Secure => 23
    case BasePlatform => 24
    case Random => 25
    case HardwareCaps2 => 26
    case ExecPath => 27
    case SysInfo => 32
    case SysInfoEhdr => 33
  }

  /**
   * `AtKinds::from_int`: the kind with discriminant `v`; `None` for unknown
   * values and also for 0, which has a kind (`Null`) but no arm.
   */
  function AtKindFromInt(v: int): Option<AtKind> {
    match v
    case 2 => Some(ExecFd)
    case 3 => Some(ProgramHeaders)
    case 4 => Some(PhEntrySize)
    case 5 => Some(PhNum)
    case 6 => Some(PageSize)
    case 7 => Some(Base)
    case 8 => Some(Flags)
    case 9 => Some(Entry)
    case 10 => Some(NotElf)
    case 11 => Some(Uid)
    case 12 => Some(EUid)
    case 13 => Some(Gid)
    case 14 => Some(EGid)
    case 15 => Some(Platform)
    case 16 => Some(HardwareCapabilities)
    case 17 => Some(ClockTick)
    case 18 => Some(FpuControlWord)
    case 19 => Some(DCacheBlockSize)
    case 20 => Some(ICacheBlockSize)
    case 21 => Some(UCacheBlockSize)
    case 23 => Some(Secure)
    case 24 => Some(BasePlatform)
    case 25 => Some(Random)
    case 26 => Some(HardwareCaps2)
    case 27 => Some(ExecPath)
    case 32 => Some(SysInfo)
    case 33 => Some(SysInfoEhdr)
    case _ => None
  }

  /**
   * Every kind but `Null` survives the trip through its discriminant, and
   * every value `from_int` accepts is the discriminant of what it returns.
   */
  lemma AtKindRoundTrip(k: AtKind, v: int)
    ensures k != Null ==> AtKindFromInt(AtValue(k)) == Some(k)
    ensures AtKindFromInt(AtValue(Null)) == None
    ensures AtKindFromInt(v).Some? ==> AtValue(AtKindFromInt(v).value) == v && AtKindFromInt(v).value != Null
  {
  }

  /**
   * `MappingInfo`; the name is the text of its `FixedStr<255>`. Android's
   * load-bias adjustment is not done here, so `startAddr` is the kernel's
   * start address.
   */
  datatype MappingInfo = MappingInfo(
    startAddr: nat,
    size: nat,
    sysStartAddr: nat,
    sysEndAddr: nat,
    offset: nat,
    hasExec: bool,
    name: string)

  /** `contains_address`. */
  predicate ContainsAddress(m: MappingInfo, address: nat): (r: bool)
    ensures r ==> m.size > 0 && m.startAddr <= address
  {
    m.startAddr <= address && m.startAddr + m.size > address
  }

  /** `find_mapping_no_bias`: the first mapping that contains `address`. */
  function FindMappingNoBias(mappings: seq<MappingInfo>, address: nat): (r: Option<nat>)
    ensures r.Some? ==> r.value < |mappings| && ContainsAddress(mappings[r.value], address)
    ensures r.Some? ==> forall k :: 0 <= k < r.value ==> !ContainsAddress(mappings[k], address)
    ensures r.None? ==> forall k :: 0 <= k < |mappings| ==> !ContainsAddress(mappings[k], address)
  {
    if |mappings| == 0 then None
    else if ContainsAddress(mappings[0], address) then Some(0)
    else
      match FindMappingNoBias(mappings[1..], address)
      case None => None
      case Some(j) => Some(j + 1)
  }

  /**
   * `str::find` for one character on the slice `s[lo..hi]`, answered as
   * an index into `s`: the first position of the range that holds `c`.
   */
  function FindIn(s: string, c: char, lo: nat, hi: nat): (r: Option<nat>)
    requires lo <= hi <= |s|
    ensures r.Some? ==> lo <= r.value < hi && s[r.value] == c
    decreases hi - lo
  {
    if lo == hi then None
    else if s[lo] == c then Some(lo)
    else FindIn(s, c, lo + 1, hi)
  }

  /** `FindIn` answers with the first occurrence, and with none only when there is none. */
  lemma {:induction false} FindInFirst(s: string, c: char, lo: nat, hi: nat)
    requires lo <= hi <= |s|
    ensures FindIn(s, c, lo, hi).Some? ==> forall k :: lo <= k < FindIn(s, c, lo, hi).value ==> s[k] != c
    ensures FindIn(s, c, lo, hi).None? ==> (forall k :: lo <= k < hi ==> s[k] != c)
    decreases hi - lo
  {
    if lo < hi && s[lo] != c {
      FindInFirst(s, c, lo + 1, hi);
    }
  }

  /** The first `c` of the range is what `FindIn` finds. */
  lemma {:induction false} FindInIs(s: string, c: char, lo: nat, hi: nat, i: nat)
    requires lo <= i < hi <= |s| && s[i] == c
    requires forall k :: lo <= k < i ==> s[k] != c
    ensures FindIn(s, c, lo, hi) == Some(i)
    decreases i - lo
  {
    if lo < i {
      FindInIs(s, c, lo + 1, hi, i);
    }
  }

  /** A range without `c` has none to find. */
  lemma {:induction false} FindInNone(s: string, c: char, lo: nat, hi: nat)
    requires lo <= hi <= |s|
    requires forall k :: lo <= k < hi ==> s[k] != c
    ensures FindIn(s, c, lo, hi) == None
    decreases hi - lo
  {
    if lo < hi {
      FindInNone(s, c, lo + 1, hi);
    }
  }

  /** The value of one hexadecimal digit, as `char::to_digit(16)`. */
  function HexDigit(c: char): Option<nat> {
    if '0' <= c <= '9' then Some(c as int - '0' as int)
    else if 'a' <= c <= 'f' then Some(c as int - 'a' as int + 10)
    else if 'A' <= c <= 'F' then Some(c as int - 'A' as int + 10)
    else None
  }

  /** The value of the digits `s[lo..hi]`, `None` if any is not one. */
  function HexValue(s: string, lo: nat, hi: nat): (r: Option<nat>)
    requires lo <= hi <= |s|
    ensures r.Some? <==> forall k :: lo <= k < hi ==> HexDigit(s[k]).Some?
    decreases hi - lo
  {
    if lo == hi then Some(0)
    else
      var hi, d := HexValue(s, lo, hi - 1), HexDigit(s[hi - 1]);
      if hi.Some? && d.Some? then Some(hi.value * 16 + d.value) else None
  }

  /**
   * `usize::from_str_radix(&s[lo..hi], 16)`: an optional `+`, then at
   * least one hexadecimal digit; values above `usize::MAX` overflow.
   */
  function ParseHex(s: string, lo: nat, hi: nat): (r: Option<nat>)
    requires lo <= hi <= |s|
    ensures r.Some? ==> r.value <= USIZE_MAX
  {
    if lo == hi then None
    else
      var first := if s[lo] == '+' then lo + 1 else lo;
      if first == hi then None
      else
        var v := HexValue(s, first, hi);
        if v.Some? && v.value <= USIZE_MAX then v else None
  }

  /** How `from_str` can fail: `InvalidMapping`, or a slice out of bounds, which panics. */
  datatype ParseError = InvalidMapping | SlicePanic

  /**
   * What every parsed mapping satisfies: addresses within `usize`, the
   * start copied to both start fields, the size as the wrapping difference
   * of end and start, and a name of at most 255 bytes.
   */
  predicate MappingShape(m: MappingInfo) {
    && m.sysStartAddr <= USIZE_MAX && m.sysEndAddr <= USIZE_MAX
    && m.startAddr == m.sysStartAddr
    && m.size == RawVec.WrappingSub(m.sysEndAddr, m.startAddr)
    && |m.name| <= 255
  }

  /**
   * `MappingInfo::from_str` as written, step by step: the start address
   * before the first `-`, then the rest in `ParseAfterStart`.
   */
  function ParseMapping(line: string): (r: Result<MappingInfo, ParseError>)
    ensures r.Ok? ==> MappingShape(r.value)
  {
    match FindIn(line, '-', 0, |line|)
    case None => Err(InvalidMapping)
    case Some(dash) =>
      match ParseHex(line, 0, dash)
      case None => Err(InvalidMapping)
      case Some(startAddr) => ParseAfterStart(line, dash, startAddr)
  }

  /** The end address, up to the first space after the `-` at `dash`. */
  function ParseAfterStart(line: string, dash: nat, startAddr: nat): (r: Result<MappingInfo, ParseError>)
    requires dash < |line| && startAddr <= USIZE_MAX
    ensures r.Ok? ==> MappingShape(r.value) && r.value.startAddr == startAddr
  {
    match FindIn(line, ' ', dash + 1, |line|)
    case None => Err(InvalidMapping)
    case Some(end) =>
      match ParseHex(line, dash + 1, end)
      case None => Err(InvalidMapping)
      case Some(endAddr) => ParseAfterRange(line, end, startAddr, endAddr)
  }

  /**
   * The rest of the line after the end address, which stops at `end`: `x`
   * among the four permission characters (slicing past the line panics),
   * the offset up to the next space, and the name from the first `/` found
   * when searching from index `offset_end`. That index is the offset
   * field's length, as `find` on the sub-slice returns it, used as an index
   * into the whole line.
   */
  function ParseAfterRange(line: string, end: nat, startAddr: nat, endAddr: nat): (r: Result<MappingInfo, ParseError>)
    requires end <= |line| && startAddr <= USIZE_MAX && endAddr <= USIZE_MAX
    ensures r.Ok? ==> MappingShape(r.value) && r.value.startAddr == startAddr && r.value.sysEndAddr == endAddr
  {
    if end + 5 > |line| then Err(SlicePanic)
    else
      var hasExec := FindIn(line, 'x', end + 1, end + 5).Some?;
      if end + 6 > |line| then Err(SlicePanic)
      else
        match FindIn(line, ' ', end + 6, |line|)
        case None => Err(InvalidMapping)
        case Some(offsetStop) =>
          match ParseHex(line, end + 6, offsetStop)
          case None => Err(InvalidMapping)
          case Some(offset) =>
            var name := NameFrom(line, offsetStop - (end + 6));
            if |name| > 255 then Err(InvalidMapping)
            else
              Ok(MappingInfo(startAddr, RawVec.WrappingSub(endAddr, startAddr), startAddr,
                             endAddr, offset, hasExec, name))
  }

  /** The name: from the first `/` at or after index `lo`, or empty. */
  function NameFrom(line: string, lo: nat): (name: string)
    requires lo <= |line|
    ensures |name| == 0 || name[0] == '/'
  {
    match FindIn(line, '/', lo, |line|)
    case Some(p) => line[p..]
    case None => ""
  }

  /** The first step decides: after a start address, the rest of the line. */
  lemma StageMapping(line: string, dash: nat, start: nat)
    requires FindIn(line, '-', 0, |line|) == Some(dash) && ParseHex(line, 0, dash) == Some(start)
    ensures ParseMapping(line) == ParseAfterStart(line, dash, start)
  {
  }

  /** The second step decides: after an end address, the rest of the line. */
  lemma StageStart(line: string, dash: nat, start: nat, end: nat, endAddr: nat)
    requires dash < |line| && start <= USIZE_MAX
    requires FindIn(line, ' ', dash + 1, |line|) == Some(end) && ParseHex(line, dash + 1, end) == Some(endAddr)
    ensures ParseAfterStart(line, dash, start) == ParseAfterRange(line, end, start, endAddr)
  {
  }

  /** The last step: the mapping, or a rejected name. */
  lemma StageRange(line: string, end: nat, start: nat, endAddr: nat, offsetStop: nat, offset: nat,
                   hasExec: bool, name: string)
    requires end + 6 <= |line| && start <= USIZE_MAX && endAddr <= USIZE_MAX
    requires FindIn(line, ' ', end + 6, |line|) == Some(offsetStop)
    requires ParseHex(line, end + 6, offsetStop) == Some(offset)
    requires hasExec == FindIn(line, 'x', end + 1, end + 5).Some?
    requires NameFrom(line, offsetStop - (end + 6)) == name
    ensures ParseAfterRange(line, end, start, endAddr)
            == if |name| > 255 then Err(InvalidMapping)
               else Ok(MappingInfo(start, RawVec.WrappingSub(endAddr, start), start, endAddr, offset, hasExec, name))
  {
  }

  /** A line whose every step succeeds parses to the values those steps found. */
  lemma ParseBySteps(line: string, dash: nat, end: nat, offsetStop: nat, start: nat, endAddr: nat, offset: nat,
                     hasExec: bool, name: string)
    requires FindIn(line, '-', 0, |line|) == Some(dash) && ParseHex(line, 0, dash) == Some(start)
    requires FindIn(line, ' ', dash + 1, |line|) == Some(end) && ParseHex(line, dash + 1, end) == Some(endAddr)
    requires end + 6 <= |line| && hasExec == FindIn(line, 'x', end + 1, end + 5).Some?
    requires FindIn(line, ' ', end + 6, |line|) == Some(offsetStop)
    requires ParseHex(line, end + 6, offsetStop) == Some(offset)
    requires NameFrom(line, offsetStop - (end + 6)) == name
    ensures ParseMapping(line)
            == if |name| > 255 then Err(InvalidMapping)
               else Ok(MappingInfo(start, RawVec.WrappingSub(endAddr, start), start, endAddr, offset, hasExec, name))
  {
    StageRange(line, end, start, endAddr, offsetStop, offset, hasExec, name);
    StageStart(line, dash, start, end, endAddr);
    StageMapping(line, dash, start);
  }

  /** A line without `-` is not a mapping. */
  lemma NoDashRejected(line: string)
    requires forall k :: 0 <= k < |line| ==> line[k] != '-'
    ensures ParseMapping(line) == Err(InvalidMapping)
  {
    FindInNone(line, '-', 0, |line|);
  }

  /** A character that is no digit (other than a leading `+`) in the start address rejects the line. */
  lemma BadStartRejected(line: string, dash: nat, k: nat)
    requires FindIn(line, '-', 0, |line|) == Some(dash)
    requires k < dash && HexDigit(line[k]).None? && (k > 0 || line[0] != '+')
    ensures ParseMapping(line) == Err(InvalidMapping)
  {
    var first := if line[0] == '+' then 1 else 0;
    if first < dash {
      HexValueBad(line, first, dash, k);
    }
  }

  /** A character that is not a digit makes the whole run unreadable. */
  lemma {:induction false} HexValueBad(s: string, lo: nat, hi: nat, k: nat)
    requires lo <= k < hi <= |s| && HexDigit(s[k]).None?
    ensures HexValue(s, lo, hi).None?
    decreases hi - lo
  {
    if k < hi - 1 {
      HexValueBad(s, lo, hi - 1, k);
    }
  }

  /** The same digits in two places have the same value. */
  lemma {:induction false} HexValueFrame(s: string, sl: nat, t: string, tl: nat, n: nat)
    requires sl + n <= |s| && tl + n <= |t|
    requires forall k :: sl <= k < sl + n ==> s[k] == t[k - sl + tl]
    ensures HexValue(s, sl, sl + n) == HexValue(t, tl, tl + n)
  {
    if n > 0 {
      HexValueFrame(s, sl, t, tl, n - 1);
    }
  }

  /** `16` to the power `n`. */
  function Pow16(n: nat): (p: nat)
    ensures p >= 1
  {
    if n == 0 then 1 else 16 * Pow16(n - 1)
  }

  /** Appending a digit to the low part of `x * p + y`. */
  lemma ShiftDigit(x: nat, p: nat, y: nat, d: nat)
    ensures (x * p + y) * 16 + d == x * (16 * p) + (y * 16 + d)
  {
  }

  /** Digits written one after another: the high part shifted by the length of the low part. */
  lemma {:induction false} HexValueSplit(s: string, lo: nat, mid: nat, hi: nat)
    requires lo <= mid <= hi <= |s|
    ensures HexValue(s, lo, hi) == (if HexValue(s, lo, mid).Some? && HexValue(s, mid, hi).Some?
                                    then Some(HexValue(s, lo, mid).value * Pow16(hi - mid) + HexValue(s, mid, hi).value)
                                    else None)
    decreases hi - mid
  {
    if mid < hi {
      HexValueSplit(s, lo, mid, hi - 1);
      if HexValue(s, lo, mid).Some? && HexValue(s, mid, hi).Some? {
        ShiftDigit(HexValue(s, lo, mid).value, Pow16(hi - 1 - mid), HexValue(s, mid, hi - 1).value,
                   HexDigit(s[hi - 1]).value);
      }
    }
  }

  /** One lower-case hexadecimal digit. */
  function HexChar(d: nat): (c: char)
    requires d < 16
    ensures HexDigit(c) == Some(d)
  {
    if d < 10 then ('0' as int + d) as char else ('a' as int + d - 10) as char
  }

  /** A run of one or more hexadecimal digits. */
  predicate IsHexRun(s: string) {
    |s| > 0 && forall k :: 0 <= k < |s| ==> HexDigit(s[k]).Some?
  }

  /** `v` written in lower-case hexadecimal without leading zeros (Rust's `x` format). */
  function HexString(v: nat): (s: string)
    ensures IsHexRun(s)
  {
    if v < 16 then [HexChar(v)] else HexString(v / 16) + [HexChar(v % 16)]
  }

  /** Reading back a written number gives the number. */
  lemma {:induction false} HexStringRoundTrip(v: nat)
    ensures HexValue(HexString(v), 0, |HexString(v)|) == Some(v)
  {
    var s := HexString(v);
    if v >= 16 {
      var h := HexString(v / 16);
      HexStringRoundTrip(v / 16);
      HexValueFrame(s, 0, h, 0, |h|);
    }
  }

  /** `n` zero digits. */
  function Zeros(n: nat): (z: string)
    ensures |z| == n && forall k :: 0 <= k < n ==> z[k] == '0'
  {
    if n == 0 then "" else Zeros(n - 1) + "0"
  }

  /** Zero digits are worth zero. */
  lemma {:induction false} ZerosValue(s: string, lo: nat, hi: nat)
    requires lo <= hi <= |s| && forall k :: lo <= k < hi ==> s[k] == '0'
    ensures HexValue(s, lo, hi) == Some(0)
    decreases hi - lo
  {
    if lo < hi {
      ZerosValue(s, lo, hi - 1);
    }
  }

  /** `v` in hexadecimal, zero-padded on the left to `width` digits (Rust's `0width$x` format). */
  function PaddedHex(v: nat, width: nat): (s: string)
    ensures IsHexRun(s) && |s| >= width
  {
    var h := HexString(v);
    if |h| >= width then h else Zeros(width - |h|) + h
  }

  /** A padded number reads back as the number. */
  lemma PaddedHexRoundTrip(v: nat, width: nat)
    ensures HexValue(PaddedHex(v, width), 0, |PaddedHex(v, width)|) == Some(v)
  {
    var h := HexString(v);
    HexStringRoundTrip(v);
    if |h| < width {
      PadValue(Zeros(width - |h|), h, v);
    }
  }

  /** Zeros in front of a run do not change its value. */
  lemma PadValue(z: string, h: string, v: nat)
    requires forall k :: 0 <= k < |z| ==> z[k] == '0'
    requires HexValue(h, 0, |h|) == Some(v)
    ensures HexValue(z + h, 0, |z + h|) == Some(v)
  {
    var s := z + h;
    assert forall k :: 0 <= k < |z| ==> s[k] == '0';
    assert forall k :: |z| <= k < |s| ==> s[k] == h[k - |z| + 0];
    HexValueSplit(s, 0, |z|, |s|);
    ZerosValue(s, 0, |z|);
    HexValueFrame(s, |z|, h, 0, |h|);
  }

  /** `piece` stands in `line` from index `at` on. */
  predicate Placed(line: string, at: nat, piece: string) {
    at + |piece| <= |line| && forall k :: at <= k < at + |piece| ==> line[k] == piece[k - at]
  }

  /** The value of a run of digits. */
  function RunValue(s: string): nat
    requires IsHexRun(s)
  {
    HexRunReads(s);
    HexValue(s, 0, |s|).value
  }

  /** A run of digits always reads as a number. */
  lemma {:induction false} HexRunReads(s: string)
    requires IsHexRun(s)
    ensures HexValue(s, 0, |s|).Some?
  {
    HexValueDigits(s, |s|);
  }

  lemma {:induction false} HexValueDigits(s: string, n: nat)
    requires n <= |s| && forall k :: 0 <= k < n ==> HexDigit(s[k]).Some?
    ensures HexValue(s, 0, n).Some?
  {
    if n > 0 {
      HexValueDigits(s, n - 1);
    }
  }

  /**
   * One line of `/proc/<pid>/maps` as proc(5) lays it out: start and end
   * addresses joined by `-`, the four permission characters, the file
   * offset, and then the device, the inode and the optional path.
   */
  function MapsLine(startHex: string, endHex: string, perms: string, offsetHex: string, rest: string): string {
    startHex + "-" + endHex + " " + perms + " " + offsetHex + " " + rest
  }

  /** The path `from_str` would report for what follows the offset field. */
  function PathOf(rest: string): (p: string)
    ensures |p| <= |rest|
  {
    NameFrom(rest, 0)
  }

  /**
   * A well-formed maps line parses to its fields: the start, the end, the
   * size as their wrapping difference, the execute bit from the
   * permissions, the offset, and the path from the first `/` after the
   * offset field (or none); a path longer than 255 bytes is rejected.
   */
  lemma ParseMapsLine(startHex: string, endHex: string, perms: string, offsetHex: string, rest: string)
    requires IsHexRun(startHex) && IsHexRun(endHex) && IsHexRun(offsetHex)
    requires RunValue(startHex) <= USIZE_MAX && RunValue(endHex) <= USIZE_MAX && RunValue(offsetHex) <= USIZE_MAX
    requires |perms| == 4 && '/' !in perms
    ensures var s, e := RunValue(startHex), RunValue(endHex);
            ParseMapping(MapsLine(startHex, endHex, perms, offsetHex, rest))
            == if |PathOf(rest)| > 255 then Err(InvalidMapping)
               else Ok(MappingInfo(s, RawVec.WrappingSub(e, s), s, e, RunValue(offsetHex), 'x' in perms, PathOf(rest)))
  {
    MapsLineLayout(startHex, endHex, perms, offsetHex, rest);
    ParseLaidOut(MapsLine(startHex, endHex, perms, offsetHex, rest), startHex, endHex, perms, offsetHex, rest);
  }

  /** The same, for any line with the fields standing where a maps line has them. */
  lemma ParseLaidOut(line: string, startHex: string, endHex: string, perms: string, offsetHex: string, rest: string)
    requires IsHexRun(startHex) && IsHexRun(endHex) && IsHexRun(offsetHex)
    requires RunValue(startHex) <= USIZE_MAX && RunValue(endHex) <= USIZE_MAX && RunValue(offsetHex) <= USIZE_MAX
    requires |perms| == 4
    requires var dash := |startHex|;
             var end := dash + 1 + |endHex|;
             var offsetStop := end + 6 + |offsetHex|;
             && |line| == offsetStop + 1 + |rest|
             && Placed(line, 0, startHex) && line[dash] == '-'
             && Placed(line, dash + 1, endHex) && line[end] == ' '
             && Placed(line, end + 1, perms) && line[end + 5] == ' '
             && Placed(line, end + 6, offsetHex) && line[offsetStop] == ' '
             && Placed(line, offsetStop + 1, rest)
             && forall k :: |offsetHex| <= k <= offsetStop ==> line[k] != '/'
    ensures var s, e := RunValue(startHex), RunValue(endHex);
            ParseMapping(line)
            == if |PathOf(rest)| > 255 then Err(InvalidMapping)
               else Ok(MappingInfo(s, RawVec.WrappingSub(e, s), s, e, RunValue(offsetHex), 'x' in perms, PathOf(rest)))
  {
    var dash := |startHex|;
    var end := dash + 1 + |endHex|;
    var offsetStop := end + 6 + |offsetHex|;
    RangeLaidOut(line, startHex, endHex);
    TailLaidOut(line, end, perms, offsetHex, rest);
    ParseBySteps(line, dash, end, offsetStop, RunValue(startHex), RunValue(endHex), RunValue(offsetHex),
                 'x' in perms, PathOf(rest));
  }

  /** The address range of a laid-out line reads back as the two runs. */
  lemma RangeLaidOut(line: string, startHex: string, endHex: string)
    requires IsHexRun(startHex) && IsHexRun(endHex)
    requires RunValue(startHex) <= USIZE_MAX && RunValue(endHex) <= USIZE_MAX
    requires var dash := |startHex|;
             var end := dash + 1 + |endHex|;
             && end < |line|
             && Placed(line, 0, startHex) && line[dash] == '-'
             && Placed(line, dash + 1, endHex) && line[end] == ' '
    ensures var dash := |startHex|;
            var end := dash + 1 + |endHex|;
            && FindIn(line, '-', 0, |line|) == Some(dash) && ParseHex(line, 0, dash) == Some(RunValue(startHex))
            && FindIn(line, ' ', dash + 1, |line|) == Some(end) && ParseHex(line, dash + 1, end) == Some(RunValue(endHex))
  {
    HexFieldAt(line, 0, startHex, '-');
    HexFieldAt(line, |startHex| + 1, endHex, ' ');
  }

  /** Permissions, offset and path of a laid-out line, after the range ending at `end`. */
  lemma TailLaidOut(line: string, end: nat, perms: string, offsetHex: string, rest: string)
    requires IsHexRun(offsetHex) && RunValue(offsetHex) <= USIZE_MAX && |perms| == 4
    requires var offsetStop := end + 6 + |offsetHex|;
             && |line| == offsetStop + 1 + |rest|
             && Placed(line, end + 1, perms) && line[end + 5] == ' '
             && Placed(line, end + 6, offsetHex) && line[offsetStop] == ' '
             && Placed(line, offsetStop + 1, rest)
             && forall k :: |offsetHex| <= k <= offsetStop ==> line[k] != '/'
    ensures var offsetStop := end + 6 + |offsetHex|;
            && (FindIn(line, 'x', end + 1, end + 5).Some? <==> 'x' in perms)
            && FindIn(line, ' ', end + 6, |line|) == Some(offsetStop)
            && ParseHex(line, end + 6, offsetStop) == Some(RunValue(offsetHex))
            && NameFrom(line, offsetStop - (end + 6)) == PathOf(rest)
  {
    HexFieldAt(line, end + 6, offsetHex, ' ');
    ExecBitAt(line, end + 1, perms);
    NameAt(line, |offsetHex|, end + 7 + |offsetHex|, rest);
  }

  /** Where each field of a maps line stands. */
  lemma MapsLineLayout(startHex: string, endHex: string, perms: string, offsetHex: string, rest: string)
    requires IsHexRun(startHex) && IsHexRun(endHex) && IsHexRun(offsetHex) && |perms| == 4 && '/' !in perms
    ensures var line, dash := MapsLine(startHex, endHex, perms, offsetHex, rest), |startHex|;
            var end := dash + 1 + |endHex|;
            var offsetStop := end + 6 + |offsetHex|;
            && Placed(line, 0, startHex) && line[dash] == '-'
            && Placed(line, dash + 1, endHex) && line[end] == ' '
            && Placed(line, end + 1, perms) && line[end + 5] == ' '
            && Placed(line, end + 6, offsetHex) && line[offsetStop] == ' '
            && Placed(line, offsetStop + 1, rest) && |line| == offsetStop + 1 + |rest|
            && forall k :: |offsetHex| <= k <= offsetStop ==> line[k] != '/'
  {
    var line := MapsLine(startHex, endHex, perms, offsetHex, rest);
    var dash := |startHex|;
    var end := dash + 1 + |endHex|;
    var offsetStop := end + 6 + |offsetHex|;
    forall k | |offsetHex| <= k <= offsetStop
      ensures line[k] != '/'
    {
      if k < dash {
        assert HexDigit(startHex[k]).Some?;
      } else if dash < k < end {
        assert HexDigit(endHex[k - dash - 1]).Some?;
      } else if end < k < end + 5 {
        assert perms[k - end - 1] in perms;
      } else if end + 5 < k < offsetStop {
        assert HexDigit(offsetHex[k - end - 6]).Some?;
      }
    }
  }

  /** A run of digits at `at`, closed by `sep`: the parser finds `sep` after it and reads its value. */
  lemma HexFieldAt(line: string, at: nat, piece: string, sep: char)
    requires IsHexRun(piece) && Placed(line, at, piece) && at + |piece| < |line| && line[at + |piece|] == sep
    requires sep == '-' || sep == ' '
    requires RunValue(piece) <= USIZE_MAX
    ensures FindIn(line, sep, at, |line|) == Some(at + |piece|)
    ensures ParseHex(line, at, at + |piece|) == Some(RunValue(piece))
  {
    assert forall k :: at <= k < at + |piece| ==> HexDigit(line[k]).Some?;
    FindInIs(line, sep, at, |line|, at + |piece|);
    assert HexDigit(line[at]).Some?;
    HexRunReads(piece);
    HexValueFrame(line, at, piece, 0, |piece|);
    assert HexValue(line, at, at + |piece|) == Some(RunValue(piece));
  }

  /** The execute bit is whether `x` is among the four permission characters. */
  lemma ExecBitAt(line: string, at: nat, perms: string)
    requires |perms| == 4 && Placed(line, at, perms)
    ensures FindIn(line, 'x', at, at + 4).Some? <==> 'x' in perms
  {
    FindInFirst(line, 'x', at, at + 4);
    if 'x' in perms {
      var i :| 0 <= i < 4 && perms[i] == 'x';
      assert line[at + i] == 'x';
    }
  }

  /** With no `/` between `from` and the rest, the name is the rest's path. */
  lemma NameAt(line: string, from: nat, at: nat, rest: string)
    requires from <= at && Placed(line, at, rest) && |line| == at + |rest|
    requires forall k :: from <= k < at ==> line[k] != '/'
    ensures NameFrom(line, from) == PathOf(rest)
  {
    FindInFirst(rest, '/', 0, |rest|);
    match FindIn(rest, '/', 0, |rest|)
    case Some(p) =>
      FindInIs(line, '/', from, |line|, at + p);
      assert line[at + p..] == rest[p..];
    case None =>
      FindInNone(line, '/', from, |line|);
  }

}
