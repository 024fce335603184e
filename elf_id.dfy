/**
 * The module identifier of a mapped ELF file: the GNU build-id note found
 * through the `PT_NOTE` program headers or the `.note.gnu.build-id`
 * section, or else an XOR fold of the start of `.text`; and its renderings
 * as uppercase hex and in the shape of a UUID.
 *
 * Headers are read as little-endian integers (the layout of the System V
 * gABI, chapter 4 "Object Files" and chapter 5 "Program Loading"). Where
 * the original panics (a failed `unwrap`, a slice out of range) or reads
 * past the end of the buffer, the model returns a `Fault`.
 */
module Elf {
  import opened Wrappers
  import opened LittleEndian
  import PageVec

  /** Why the lookup stopped instead of giving an answer. */
  datatype Fault =
    | Panic        // a failed `unwrap` or a slice index out of range
    | OutOfBounds  // a raw read of header tables past the end of the data

  const MAX_ID_SIZE: nat := 64

  // ------------------------------------------------------------------ ElfId

  /** `ElfId`: a fixed 64-byte buffer and the length of the identifier in it. */
  datatype ElfId = ElfId(id: seq<u8>, len: nat)

  predicate ValidId(e: ElfId) {
    |e.id| == MAX_ID_SIZE && e.len <= MAX_ID_SIZE
  }

  /** `as_ref`: the identifier bytes. */
  function AsRef(e: ElfId): (r: seq<u8>)
    requires e.len <= |e.id|
    ensures |r| == e.len
  {
    e.id[..e.len]
  }

  /** `ElfId::new`: identifiers longer than 64 bytes are refused. */
  function New(slice: seq<u8>): (r: Option<ElfId>)
    ensures r.Some? <==> |slice| <= MAX_ID_SIZE
    ensures r.Some? ==> ValidId(r.value) && AsRef(r.value) == slice
  {
    if |slice| <= MAX_ID_SIZE then Some(ElfId(slice + PageVec.Repeat(0, MAX_ID_SIZE - |slice|), |slice|)) else None
  }

  // -------------------------------------------------------------------- hex

  const HEX_CHARS: string := "0123456789ABCDEF"

  function HexDigit(n: nat): char
    requires n < 16
  {
    HEX_CHARS[n]
  }

  /** `to_hex_string` and `UpperHex`: two uppercase digits per byte, high nibble first. */
  function ToHex(bytes: seq<u8>): (r: string)
    ensures |r| == 2 * |bytes|
    ensures forall i :: 0 <= i < |bytes| ==>
              r[2 * i] == HexDigit(bytes[i] as nat / 16) && r[2 * i + 1] == HexDigit(bytes[i] as nat % 16)
  {
    if |bytes| == 0 then ""
    else
      var rest := ToHex(bytes[1..]);
      assert forall i :: 1 <= i < |bytes| ==> bytes[i] == bytes[1..][i - 1];
      [HexDigit(bytes[0] as nat / 16), HexDigit(bytes[0] as nat % 16)] + rest
  }

  /** The value of an uppercase hex digit. */
  function HexValue(c: char): Option<nat> {
    if '0' <= c <= '9' then Some(c as nat - '0' as nat)
    else if 'A' <= c <= 'F' then Some(c as nat - 'A' as nat + 10)
    else None
  }

  /** Reading uppercase hex back into bytes; `None` on an odd length or a non-digit. */
  function FromHex(s: string): (r: Option<seq<u8>>)
    decreases |s|
  {
    if |s| == 0 then Some([])
    else if |s| == 1 then None
    else
      match (HexValue(s[0]), HexValue(s[1]), FromHex(s[2..]))
      case (Some(hi), Some(lo), Some(rest)) => if hi * 16 + lo < 256 then Some([(hi * 16 + lo) as u8] + rest) else None
      case _ => None
  }

  lemma HexValueOfDigit(n: nat)
    requires n < 16
    ensures HexValue(HexDigit(n)) == Some(n)
  {
    assert HEX_CHARS == ['0', '1', '2', '3', '4', '5', '6', '7', '8', '9', 'A', 'B', 'C', 'D', 'E', 'F'];
  }

  /** The hex rendering loses nothing: reading it back gives the bytes. */
  lemma {:induction false} FromHexToHex(bytes: seq<u8>)
    ensures FromHex(ToHex(bytes)) == Some(bytes)
  {
    if |bytes| > 0 {
      var s := ToHex(bytes);
      var b := bytes[0] as nat;
      HexValueOfDigit(b / 16);
      HexValueOfDigit(b % 16);
      assert s[2..] == ToHex(bytes[1..]);
      FromHexToHex(bytes[1..]);
      assert [(b / 16 * 16 + b % 16) as u8] + bytes[1..] == bytes;
    }
  }

  // ------------------------------------------------------------------- UUID

  function Min(a: nat, b: nat): nat {
    if a <= b then a else b
  }

  /** End of the four-byte group `as_uuid_string` reverses: only when four bytes are copied. */
  function FirstGroupEnd(toCopy: nat): nat {
    if 4 <= toCopy then 4 else 0
  }

  /** End of the first two-byte group, which starts where the previous group ended. */
  function SecondGroupEnd(toCopy: nat): nat {
    var a := FirstGroupEnd(toCopy);
    if a + 2 <= toCopy then a + 2 else a
  }

  /** End of the second two-byte group. */
  function ThirdGroupEnd(toCopy: nat): nat {
    var b := SecondGroupEnd(toCopy);
    if b + 2 <= toCopy then b + 2 else b
  }

  /**
   * Which identifier byte lands in slot `k` of the UUID: each group is
   * turned from native (little-endian) to big-endian order, i.e. reversed;
   * the bytes after the groups are copied as they are.
   */
  function UuidIndex(k: nat, toCopy: nat): (r: nat)
    ensures k < toCopy ==> r < toCopy
    ensures k >= ThirdGroupEnd(toCopy) ==> r == k
    ensures k < FirstGroupEnd(toCopy) ==> r < FirstGroupEnd(toCopy)
  {
    var a := FirstGroupEnd(toCopy);
    var b := SecondGroupEnd(toCopy);
    var c := ThirdGroupEnd(toCopy);
    if k < a then a - 1 - k
    else if k < b then a + b - 1 - k
    else if k < c then b + c - 1 - k
    else k
  }

  /** The 16 bytes `as_uuid_string` renders. */
  function UuidBytes(e: ElfId): (r: seq<u8>)
    requires ValidId(e)
    ensures |r| == 16
  {
    var toCopy := Min(16, e.len);
    seq(16, k requires 0 <= k < 16 => if k < toCopy then e.id[UuidIndex(k, toCopy)] else 0)
  }

  /**
   * The UUID slots are filled by a permutation of the copied bytes that is
   * its own inverse, and the slots past them stay zero.
   */
  lemma UuidIndexInvolution(k: nat, toCopy: nat)
    requires k < toCopy
    ensures UuidIndex(k, toCopy) < toCopy && UuidIndex(UuidIndex(k, toCopy), toCopy) == k
  {
  }

  /** For an identifier of 16 bytes or more, the usual GUID byte order. */
  lemma UuidIndexFull(k: nat)
    requires k < 16
    ensures UuidIndex(k, 16) == if k < 4 then 3 - k else if k < 6 then 9 - k else if k < 8 then 13 - k else k
  {
  }

  /** `part = to_be_bytes(from_ne_bytes(part))` on a little-endian host: the group reversed. */
  method ReverseGroup(uuid: array<u8>, id: seq<u8>, ind: nat, width: nat)
    requires ind + width <= uuid.Length && ind + width <= |id|
    modifies uuid
    ensures forall k :: 0 <= k < uuid.Length && ind <= k < ind + width ==> uuid[k] == id[2 * ind + width - 1 - k]
    ensures forall k :: 0 <= k < uuid.Length && !(ind <= k < ind + width) ==> uuid[k] == old(uuid[k])
  {
    forall j | 0 <= j < width {
      uuid[ind + j] := id[ind + width - 1 - j];
    }
  }

  /** `as_uuid_string`: always 32 hex digits. */
  method AsUuidString(e: ElfId) returns (s: string)
    requires ValidId(e)
    ensures s == ToHex(UuidBytes(e)) && |s| == 32
  {
    var uuid := new u8[16](_ => 0);
    var toCopy := Min(16, e.len);
    var ind := 0;
    if ind + 4 <= toCopy {
      ReverseGroup(uuid, e.id, ind, 4);
      ind := ind + 4;
    }
    assert ind == FirstGroupEnd(toCopy);
    if ind + 2 <= toCopy {
      ReverseGroup(uuid, e.id, ind, 2);
      ind := ind + 2;
    }
    assert ind == SecondGroupEnd(toCopy);
    if ind + 2 <= toCopy {
      ReverseGroup(uuid, e.id, ind, 2);
      ind := ind + 2;
    }
    assert ind == ThirdGroupEnd(toCopy);
    forall k | ind <= k < toCopy {
      uuid[k] := e.id[k];
    }
    assert uuid[..] == UuidBytes(e);
    s := ToHex(uuid[..]);
  }

  // ------------------------------------------------------------------ notes

  const NT_GNU_BUILD_ID: nat := 3

  /** Notes keep name and descriptor on 4-byte boundaries. */
  function Align4(o: nat): (r: nat)
    ensures r % 4 == 0 && o <= r < o + 4
  {
    if o % 4 == 0 then o else o + (4 - o % 4)
  }

  /** A note header's type and its descriptor; the name is skipped. */
  datatype Note = Note(kind: nat, desc: seq<u8>)

  /**
   * `ElfNote::try_from_ctx` through `gread`, at offset `at` of the note
   * data: three little-endian `u32`s (name size, descriptor size, type),
   * the name padded to 4 bytes, the descriptor, padded again. A read at or
   * past the end of the data fails even when it is empty. Gives the note
   * and the offset after it.
   */
  function NoteAt(s: seq<u8>, at: nat): (r: Option<(Note, nat)>)
    ensures r.Some? ==> at + 12 <= r.value.1 <= |s| + 3
  {
    if at >= |s| || |s| - at < 12 then None
    else NoteBody(s, at, U32At(s, at), U32At(s, at + 4), U32At(s, at + 8))
  }

  /** A little-endian `u32` field. */
  function U32At(s: seq<u8>, at: nat): nat
    requires at + 4 <= |s|
  {
    LeAt(s, at, 4)
  }

  /** The rest of a note once its three header fields are read: the name skipped, the descriptor sliced. */
  function NoteBody(s: seq<u8>, at: nat, nameSize: nat, descSize: nat, kind: nat): (r: Option<(Note, nat)>)
    requires at + 12 <= |s|
    ensures r.Some? ==> at + 12 <= r.value.1 <= |s| + 3
  {
    var o := Align4(12 + nameSize);
    if o >= |s| - at || o + descSize > |s| - at then None
    else Some((Note(kind, s[at + o..at + o + descSize]), at + Align4(o + descSize)))
  }

  /** The notes from offset `at` on: the first build-id note whose descriptor fits an `ElfId`. */
  function BuildIdFrom(s: seq<u8>, at: nat): (r: Option<ElfId>)
    ensures r.Some? ==> ValidId(r.value)
    decreases |s| + 4 - at
  {
    match NoteAt(s, at)
    case None => None
    case Some((note, next)) =>
      if note.kind == NT_GNU_BUILD_ID && New(note.desc).Some? then New(note.desc) else BuildIdFrom(s, next)
  }

  /** `build_id_from_note`: read notes until one fails to parse. */
  method BuildIdFromNote(noteSection: seq<u8>) returns (r: Option<ElfId>)
    ensures r == BuildIdFrom(noteSection, 0)
  {
    var offset := 0;
    while true
      invariant offset <= |noteSection| + 3
      invariant BuildIdFrom(noteSection, offset) == BuildIdFrom(noteSection, 0)
      decreases |noteSection| + 4 - offset
    {
      var parsed := NoteAt(noteSection, offset);
      if parsed.None? {
        return None;
      }
      var note := parsed.value.0;
      offset := parsed.value.1;
      if note.kind == NT_GNU_BUILD_ID {
        var id := New(note.desc);
        if id.Some? {
          return id;
        }
      }
    }
  }

  // -------------------------------------------------- notes as a linker lays them out

  /** A note as written into an object file. */
  datatype NoteRecord = NoteRecord(kind: nat, name: seq<u8>, desc: seq<u8>)

  const U32_LIMIT: nat := 0x1_0000_0000

  /** A note that can be encoded, with a non-empty descriptor. */
  predicate Encodable(n: NoteRecord) {
    n.kind < U32_LIMIT && |n.name| < U32_LIMIT && 0 < |n.desc| < U32_LIMIT
  }

  /** Bytes padded with zeros to a 4-byte boundary. */
  function Pad4(b: seq<u8>): (r: seq<u8>)
    ensures |r| == Align4(|b|) && r[..|b|] == b
  {
    b + PageVec.Repeat(0, Align4(|b|) - |b|)
  }

  /** The note layout of chapter 5 of the System V gABI ("Note Section"). */
  function EncodeNote(n: NoteRecord): (r: seq<u8>)
    requires Encodable(n)
    ensures |r| == 12 + Align4(|n.name|) + Align4(|n.desc|)
  {
    LeBytes(|n.name|, 4) + LeBytes(|n.desc|, 4) + LeBytes(n.kind, 4) + Pad4(n.name) + Pad4(n.desc)
  }

  function EncodeNotes(ns: seq<NoteRecord>): (r: seq<u8>)
    requires forall i :: 0 <= i < |ns| ==> Encodable(ns[i])
  {
    if |ns| == 0 then [] else EncodeNote(ns[0]) + EncodeNotes(ns[1..])
  }

  /** The first build-id record whose descriptor fits an `ElfId`. */
  function FirstBuildId(ns: seq<NoteRecord>): Option<ElfId> {
    if |ns| == 0 then None
    else if ns[0].kind == NT_GNU_BUILD_ID && |ns[0].desc| <= MAX_ID_SIZE then New(ns[0].desc)
    else FirstBuildId(ns[1..])
  }

  /** Reading back the bytes of a small value gives the value. */
  lemma {:induction false} LeAtOfLeBytes(v: nat, n: nat)
    requires v < Pow256(n)
    ensures LeAt(LeBytes(v, n), 0, n) == v
    decreases n
  {
    if n > 0 {
      var b := LeBytes(v, n);
      var tail := LeBytes(v / 256, n - 1);
      forall k | 1 <= k < 1 + (n - 1)
        ensures b[k] == tail[k - 1 + 0]
      {
        assert ByteOf(v, k) == ByteOf(v / 256, k - 1);
      }
      LeAtFrame(b, 1, tail, 0, n - 1);
      LeAtOfLeBytes(v / 256, n - 1);
    }
  }

  /** A 32-bit field of an encoded note, read where it was written. */
  lemma FieldAt(s: seq<u8>, at: nat, v: nat)
    requires v < U32_LIMIT && at + 4 <= |s| && s[at..at + 4] == LeBytes(v, 4)
    ensures LeAt(s, at, 4) == v
  {
    assert Pow256(4) == U32_LIMIT;
    var b := LeBytes(v, 4);
    forall k | at <= k < at + 4
      ensures s[k] == b[k - at + 0]
    {
      assert s[k] == s[at..at + 4][k - at];
    }
    LeAtFrame(s, at, b, 0, 4);
    LeAtOfLeBytes(v, 4);
  }

  /** The fields a note header holds decide the note `NoteAt` reads. */
  lemma NoteAtFields(s: seq<u8>, at: nat, nameSize: nat, desc: seq<u8>, kind: nat, o: nat, next: nat)
    requires at + 12 <= |s|
    requires U32At(s, at) == nameSize && U32At(s, at + 4) == |desc| && U32At(s, at + 8) == kind
    requires o == Align4(12 + nameSize) && o < |s| - at && o + |desc| <= |s| - at
    requires s[at + o..at + o + |desc|] == desc && next == at + Align4(o + |desc|)
    ensures NoteAt(s, at) == Some((Note(kind, desc), next))
  {
  }

  /** Where each part of an encoded note sits. */
  lemma EncodeNoteParts(n: NoteRecord)
    requires Encodable(n)
    ensures var e := EncodeNote(n);
            var o := 12 + Align4(|n.name|);
            && e[0..4] == LeBytes(|n.name|, 4)
            && e[4..8] == LeBytes(|n.desc|, 4)
            && e[8..12] == LeBytes(n.kind, 4)
            && e[o..o + |n.desc|] == n.desc
  {
    var a, b, c := LeBytes(|n.name|, 4), LeBytes(|n.desc|, 4), LeBytes(n.kind, 4);
    var pn, pd := Pad4(n.name), Pad4(n.desc);
    var e := EncodeNote(n);
    assert e == (a + b + c + pn) + pd;
    var o := 12 + Align4(|n.name|);
    assert e[o..o + |n.desc|] == pd[..|n.desc|];
    assert e[..12] == a + b + c;
  }

  /** The fields of an encoded note, read back. */
  lemma EncodeNoteFields(n: NoteRecord)
    requires Encodable(n)
    ensures var e := EncodeNote(n);
            var o := 12 + Align4(|n.name|);
            && U32At(e, 0) == |n.name| && U32At(e, 4) == |n.desc| && U32At(e, 8) == n.kind
            && e[o..o + |n.desc|] == n.desc
  {
    EncodeNoteParts(n);
    var e := EncodeNote(n);
    FieldAt(e, 0, |n.name|);
    FieldAt(e, 4, |n.desc|);
    FieldAt(e, 8, n.kind);
  }

  /** `e` sits in `s` at offset `at`. */
  predicate Placed(s: seq<u8>, at: nat, e: seq<u8>) {
    at + |e| <= |s| && forall k :: 0 <= k < |e| ==> s[at + k] == e[k]
  }

  /** Realigning past a multiple of four. */
  lemma Align4Shift(o: nat, d: nat)
    requires o % 4 == 0
    ensures Align4(o + d) == o + Align4(d)
  {
    assert (o + d) % 4 == d % 4;
  }

  /** A field of bytes placed in `s` reads the same in `s`. */
  lemma PlacedU32(s: seq<u8>, at: nat, e: seq<u8>, j: nat)
    requires Placed(s, at, e) && j + 4 <= |e|
    ensures U32At(s, at + j) == U32At(e, j)
  {
    LeAtFrame(s, at + j, e, j, 4);
  }

  /** A slice of bytes placed in `s` is the same slice of `s`. */
  lemma PlacedSlice(s: seq<u8>, at: nat, e: seq<u8>, i: nat, j: nat)
    requires Placed(s, at, e) && i <= j <= |e|
    ensures s[at + i..at + j] == e[i..j]
  {
    forall k | 0 <= k < j - i
      ensures s[at + i..at + j][k] == e[i..j][k]
    {
      assert s[at + (i + k)] == e[i + k];
    }
  }

  /** The offsets of a note's descriptor and of its end, past a name of `nameSize` bytes. */
  lemma NoteOffsets(nameSize: nat, d: nat)
    ensures Align4(12 + nameSize) == 12 + Align4(nameSize)
    ensures Align4(12 + Align4(nameSize) + d) == 12 + Align4(nameSize) + Align4(d)
  {
    Align4Shift(12, nameSize);
    Align4Shift(12 + Align4(nameSize), d);
  }

  /**
   * Bytes `e` laid out as a note header for `kind`, a name of `nameSize`
   * bytes and `desc`, placed at offset `at`, parse back into that note and
   * end where the layout ends.
   */
  lemma NoteAtLaidOut(s: seq<u8>, at: nat, e: seq<u8>, nameSize: nat, desc: seq<u8>, kind: nat)
    requires 0 < |desc| && |e| == 12 + Align4(nameSize) + Align4(|desc|)
    requires U32At(e, 0) == nameSize && U32At(e, 4) == |desc| && U32At(e, 8) == kind
    requires e[12 + Align4(nameSize)..12 + Align4(nameSize) + |desc|] == desc
    requires Placed(s, at, e)
    ensures NoteAt(s, at) == Some((Note(kind, desc), at + |e|))
  {
    var o := 12 + Align4(nameSize);
    PlacedU32(s, at, e, 0);
    PlacedU32(s, at, e, 4);
    PlacedU32(s, at, e, 8);
    PlacedSlice(s, at, e, o, o + |desc|);
    NoteOffsets(nameSize, |desc|);
    NoteAtFields(s, at, nameSize, desc, kind, o, at + |e|);
  }

  /** What `NoteAtLaidOut` needs to know of the bytes `e` of note `n`. */
  predicate LaidOut(e: seq<u8>, n: NoteRecord) {
    && 0 < |n.desc|
    && |e| == 12 + Align4(|n.name|) + Align4(|n.desc|)
    && U32At(e, 0) == |n.name| && U32At(e, 4) == |n.desc| && U32At(e, 8) == n.kind
    && e[12 + Align4(|n.name|)..12 + Align4(|n.name|) + |n.desc|] == n.desc
  }

  /** The encoding of a note is laid out as a note. */
  lemma EncodeNoteLaidOut(n: NoteRecord)
    requires Encodable(n)
    ensures LaidOut(EncodeNote(n), n)
  {
    EncodeNoteFields(n);
  }

  /** The encodings of the notes, one per note. */
  function Encodings(ns: seq<NoteRecord>): (r: seq<seq<u8>>)
    requires forall i :: 0 <= i < |ns| ==> Encodable(ns[i])
    ensures |r| == |ns|
  {
    if |ns| == 0 then [] else [EncodeNote(ns[0])] + Encodings(ns[1..])
  }

  function Concat(es: seq<seq<u8>>): seq<u8> {
    if |es| == 0 then [] else es[0] + Concat(es[1..])
  }

  /** The notes encoded one after another are their encodings laid end to end, each laid out as its note. */
  lemma {:induction false} EncodingsLaidOut(ns: seq<NoteRecord>)
    requires forall i :: 0 <= i < |ns| ==> Encodable(ns[i])
    ensures EncodeNotes(ns) == Concat(Encodings(ns))
    ensures forall i :: 0 <= i < |ns| ==> LaidOut(Encodings(ns)[i], ns[i])
    decreases |ns|
  {
    if |ns| > 0 {
      EncodingsLaidOut(ns[1..]);
      EncodeNoteLaidOut(ns[0]);
      var es := Encodings(ns);
      assert es[1..] == Encodings(ns[1..]);
      forall i | 0 <= i < |ns|
        ensures LaidOut(es[i], ns[i])
      {
        if i > 0 {
          assert es[i] == Encodings(ns[1..])[i - 1] && ns[i] == ns[1..][i - 1];
        }
      }
    }
  }

  /** One note of the loop: a fitting build id ends it, anything else moves on. */
  lemma BuildIdFromStep(s: seq<u8>, at: nat, note: Note, next: nat)
    requires NoteAt(s, at) == Some((note, next))
    ensures BuildIdFrom(s, at)
            == if note.kind == NT_GNU_BUILD_ID && |note.desc| <= MAX_ID_SIZE then New(note.desc) else BuildIdFrom(s, next)
  {
  }

  /** A note laid out at offset `at`: the loop takes it, or moves on past it. */
  lemma BuildIdLaidOut(s: seq<u8>, at: nat, e: seq<u8>, n: NoteRecord)
    requires LaidOut(e, n) && Placed(s, at, e)
    ensures BuildIdFrom(s, at)
            == if n.kind == NT_GNU_BUILD_ID && |n.desc| <= MAX_ID_SIZE then New(n.desc)
               else BuildIdFrom(s, at + |e|)
  {
    NoteAtLaidOut(s, at, e, |n.name|, n.desc, n.kind);
    BuildIdFromStep(s, at, Note(n.kind, n.desc), at + |e|);
  }

  /** Two pieces placed together are each placed. */
  lemma PlacedSplit(s: seq<u8>, at: nat, a: seq<u8>, b: seq<u8>)
    requires Placed(s, at, a + b)
    ensures Placed(s, at, a) && Placed(s, at + |a|, b)
  {
    forall k | 0 <= k < |a|
      ensures s[at + k] == a[k]
    {
      assert (a + b)[k] == a[k];
    }
    forall k | 0 <= k < |b|
      ensures s[at + |a| + k] == b[k]
    {
      assert (a + b)[|a| + k] == b[k];
    }
  }

  /**
   * Notes laid out one after another up to the end of the data:
   * `build_id_from_note` finds the first build-id note that fits, skipping
   * notes of other types and build ids longer than 64 bytes.
   */
  lemma {:induction false} BuildIdOfLaidOut(s: seq<u8>, at: nat, es: seq<seq<u8>>, ns: seq<NoteRecord>)
    requires AllLaidOut(es, ns) && Fills(s, at, es)
    ensures BuildIdFrom(s, at) == FirstBuildId(ns)
    decreases |ns|
  {
    if |ns| == 0 {
      BuildIdAtEnd(s, at, es);
    } else {
      LaidOutTail(es, ns);
      FillsTail(s, at, es);
      BuildIdOfLaidOut(s, at + |es[0]|, es[1..], ns[1..]);
      BuildIdStep(s, at, es[0], ns);
    }
  }

  /** The pieces `es`, laid end to end, run from `at` to the end of `s`. */
  predicate Fills(s: seq<u8>, at: nat, es: seq<seq<u8>>) {
    Placed(s, at, Concat(es)) && at + |Concat(es)| == |s|
  }

  /** The first note is taken, or the search goes on with the rest. */
  lemma BuildIdStep(s: seq<u8>, at: nat, e: seq<u8>, ns: seq<NoteRecord>)
    requires 0 < |ns| && LaidOut(e, ns[0]) && Placed(s, at, e)
    requires BuildIdFrom(s, at + |e|) == FirstBuildId(ns[1..])
    ensures BuildIdFrom(s, at) == FirstBuildId(ns)
  {
    BuildIdLaidOut(s, at, e, ns[0]);
  }

  /** Each piece is laid out as the note at the same position. */
  predicate AllLaidOut(es: seq<seq<u8>>, ns: seq<NoteRecord>) {
    |es| == |ns| && forall i :: 0 <= i < |ns| ==> LaidOut(es[i], ns[i])
  }

  /** No note starts at the end of the data. */
  lemma BuildIdAtEnd(s: seq<u8>, at: nat, es: seq<seq<u8>>)
    requires |es| == 0 && Fills(s, at, es)
    ensures BuildIdFrom(s, at) == None
  {
    assert NoteAt(s, at) == None;
  }

  /** The first note is laid out, and so are the rest. */
  lemma LaidOutTail(es: seq<seq<u8>>, ns: seq<NoteRecord>)
    requires 0 < |ns| && AllLaidOut(es, ns)
    ensures LaidOut(es[0], ns[0]) && AllLaidOut(es[1..], ns[1..])
  {
    forall i | 0 <= i < |ns| - 1
      ensures LaidOut(es[1..][i], ns[1..][i])
    {
      assert LaidOut(es[i + 1], ns[i + 1]);
    }
  }

  /** The first piece of notes laid end to end, and the rest after it. */
  lemma FillsTail(s: seq<u8>, at: nat, es: seq<seq<u8>>)
    requires 0 < |es| && Fills(s, at, es)
    ensures Placed(s, at, es[0]) && Fills(s, at + |es[0]|, es[1..])
  {
    assert Concat(es) == es[0] + Concat(es[1..]);
    PlacedSplit(s, at, es[0], Concat(es[1..]));
  }

  /** Starting from the front of the note data. */
  lemma BuildIdOfNotes(ns: seq<NoteRecord>)
    requires forall i :: 0 <= i < |ns| ==> Encodable(ns[i])
    ensures BuildIdFrom(EncodeNotes(ns), 0) == FirstBuildId(ns)
  {
    var s := EncodeNotes(ns);
    EncodingsLaidOut(ns);
    assert Fills(s, 0, Encodings(ns));
    BuildIdOfLaidOut(s, 0, Encodings(ns), ns);
  }
}
