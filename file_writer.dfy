/**
 * The minidump file writer: space is reserved at the end of what has been
 * handed out so far (`pos`), the file grows a whole number of pages at a
 * time (`len`), and each reservation is back-filled later through the item,
 * array or header-array handle it came with. A handle's location is the
 * minidump location descriptor (`rva`, `data_size`) of its reservation.
 *
 * The file is its bytes and its cursor. Whether `set_len` and `write_all`
 * succeed is decided by the caller, as a parameter.
 */
module Writer {
  import opened Wrappers

  /** The `std::io::Error` a failed `set_len` or write gives back. */
  datatype IoError = IoError

  datatype Reservation = Reservation(pos: nat, size: nat)

  /** A minidump location descriptor: two 32-bit fields. */
  datatype Location = Location(rva: nat, dataSize: nat)

  const U32_MODULUS: nat := 0x1_0000_0000

  /** The three handles a reservation comes with, with the sizes of what they hold. */
  datatype Reserved =
    | MDItem(reservation: Reservation, kindSize: nat)
    | MDArray(reservation: Reservation, kindSize: nat)
    | MDHeaderArray(reservation: Reservation, headerSize: nat, kindSize: nat)

  /** `location`: the reservation as a descriptor, each field cast to `u32`. */
  function LocationOf(item: Reserved): (r: Location)
    ensures r.rva < U32_MODULUS && r.dataSize < U32_MODULUS
    ensures r.rva % U32_MODULUS == item.reservation.pos % U32_MODULUS
    ensures r.dataSize % U32_MODULUS == item.reservation.size % U32_MODULUS
  {
    Location(item.reservation.pos % U32_MODULUS, item.reservation.size % U32_MODULUS)
  }

  /** A descriptor of a reservation below 4 GiB is exactly the reservation. */
  lemma LocationExact(item: Reserved)
    requires item.reservation.pos < U32_MODULUS && item.reservation.size < U32_MODULUS
    ensures LocationOf(item) == Location(item.reservation.pos, item.reservation.size)
  {
  }

  /** `size / page_size + 1` pages hold more than `size` bytes, and at most one page more. */
  lemma PagesCover(size: nat, pageSize: nat)
    requires 0 < pageSize
    ensures size < (size / pageSize + 1) * pageSize <= size + pageSize
  {
    var q, m := size / pageSize, size % pageSize;
    assert size == q * pageSize + m;
    assert (q + 1) * pageSize == q * pageSize + pageSize;
  }

  /** The length `reserve_raw` grows the file to: one page more than `size` needs, in whole pages. */
  function GrownLen(len: nat, size: nat, pageSize: nat): (r: nat)
    requires 0 < pageSize
    ensures len + size < r <= len + size + pageSize
  {
    var pages := size / pageSize + 1;
    PagesCover(size, pageSize);
    len + pages * pageSize
  }

  /** `set_len`: the file cut or extended with zeros to `n` bytes. */
  function Resized(file: seq<u8>, n: nat): (r: seq<u8>)
    ensures |r| == n
    ensures forall k :: 0 <= k < n ==> r[k] == if k < |file| then file[k] else 0
  {
    if n <= |file| then file[..n] else file + seq(n - |file|, _ => 0)
  }

  /** `write_all` at offset `at`: a hole past the end reads as zeros. */
  function WriteAt(file: seq<u8>, at: nat, bytes: seq<u8>): (r: seq<u8>)
    ensures |r| == if at + |bytes| <= |file| then |file| else at + |bytes|
    ensures forall k :: 0 <= k < |bytes| ==> r[at + k] == bytes[k]
    ensures forall k :: 0 <= k < |r| && (k < at || at + |bytes| <= k) ==> r[k] == if k < |file| then file[k] else 0
  {
    var head := Resized(file, at);
    var tail := if at + |bytes| <= |file| then file[at + |bytes|..] else [];
    head + bytes + tail
  }

  /** Element `index` of an array of `count` elements lies inside the array. */
  lemma ElementInside(start: nat, kindSize: nat, index: nat, count: nat)
    requires index < count
    ensures start + kindSize * index + kindSize <= start + kindSize * count
  {
    assert kindSize * index + kindSize == kindSize * (index + 1);
    assert kindSize * (index + 1) <= kindSize * count;
  }

  /** `FileWriter`: the file, its page size, the next free position and the length the file has been grown to. */
  class FileWriter {
    var file: seq<u8>
    var cursor: nat
    const pageSize: nat
    var pos: nat
    var len: nat

    /** What every reservation keeps: nothing has been handed out past the grown length. */
    predicate Valid()
      reads this
    {
      0 < pageSize && pos <= len
    }

    /** `FileWriter::new`: nothing reserved and nothing grown yet. */
    constructor (file: seq<u8>, pageSize: nat)
      requires 0 < pageSize
      ensures Valid() && this.file == file && cursor == 0 && this.pageSize == pageSize && pos == 0 && len == 0
    {
      this.file := file;
      cursor := 0;
      this.pageSize := pageSize;
      pos := 0;
      len := 0;
    }

    /**
     * `reserve_raw`: the next `size` bytes from `pos`. When fewer than
     * `size` bytes are left below `len`, the file is first grown to
     * `GrownLen`; a failed `set_len` changes nothing.
     */
    method ReserveRaw(size: nat, setLenOk: bool) returns (r: Result<Reservation, IoError>)
      requires Valid()
      modifies this
      ensures Valid() && cursor == old(cursor)
      ensures old(len - pos) < size && !setLenOk ==>
                r == Err(IoError) && file == old(file) && pos == old(pos) && len == old(len)
      ensures old(len - pos) < size && setLenOk ==>
                len == GrownLen(old(len), size, pageSize) && file == Resized(old(file), len)
      ensures size <= old(len - pos) ==> len == old(len) && file == old(file)
      ensures r.Err? <==> old(len - pos) < size && !setLenOk
      ensures r.Ok? ==> r.value == Reservation(old(pos), size) && pos == old(pos) + size
    {
      if len - pos < size {
        var newLen := GrownLen(len, size, pageSize);
        if !setLenOk {
          return Err(IoError);
        }
        file := Resized(file, newLen);
        len := newLen;
      }
      var at := pos;
      pos := pos + size;
      return Ok(Reservation(at, size));
    }

    /** `reserve`: room for one item of `kindSize` bytes. */
    method Reserve(kindSize: nat, setLenOk: bool) returns (r: Result<Reserved, IoError>)
      requires Valid()
      modifies this
      ensures Valid() && cursor == old(cursor)
      ensures old(len - pos) < kindSize && setLenOk ==>
                len == GrownLen(old(len), kindSize, pageSize) && file == Resized(old(file), len)
      ensures !(old(len - pos) < kindSize && setLenOk) ==> len == old(len) && file == old(file)
      ensures r.Err? <==> old(len - pos) < kindSize && !setLenOk
      ensures r.Err? ==> r.error == IoError && pos == old(pos)
      ensures r.Ok? ==> r.value == MDItem(Reservation(old(pos), kindSize), kindSize) && pos == old(pos) + kindSize
    {
      var res := ReserveRaw(kindSize, setLenOk);
      if res.Err? {
        return Err(res.error);
      }
      return Ok(MDItem(res.value, kindSize));
    }

    /** `reserve_array`: room for `count` items of `kindSize` bytes. */
    method ReserveArray(kindSize: nat, count: nat, setLenOk: bool) returns (r: Result<Reserved, IoError>)
      requires Valid()
      modifies this
      ensures Valid() && cursor == old(cursor)
      ensures old(len - pos) < kindSize * count && setLenOk ==>
                len == GrownLen(old(len), kindSize * count, pageSize) && file == Resized(old(file), len)
      ensures !(old(len - pos) < kindSize * count && setLenOk) ==> len == old(len) && file == old(file)
      ensures r.Err? <==> old(len - pos) < kindSize * count && !setLenOk
      ensures r.Err? ==> r.error == IoError && pos == old(pos)
      ensures r.Ok? ==> r.value == MDArray(Reservation(old(pos), kindSize * count), kindSize)
                        && pos == old(pos) + kindSize * count
    {
      var res := ReserveRaw(kindSize * count, setLenOk);
      if res.Err? {
        return Err(res.error);
      }
      return Ok(MDArray(res.value, kindSize));
    }

    /** `reserve_header_array`: room for a header of `headerSize` bytes followed by `count` items. */
    method ReserveHeaderArray(headerSize: nat, kindSize: nat, count: nat, setLenOk: bool) returns (r: Result<Reserved, IoError>)
      requires Valid()
      modifies this
      ensures Valid() && cursor == old(cursor)
      ensures old(len - pos) < headerSize + kindSize * count && setLenOk ==>
                len == GrownLen(old(len), headerSize + kindSize * count, pageSize) && file == Resized(old(file), len)
      ensures !(old(len - pos) < headerSize + kindSize * count && setLenOk) ==> len == old(len) && file == old(file)
      ensures r.Err? <==> old(len - pos) < headerSize + kindSize * count && !setLenOk
      ensures r.Err? ==> r.error == IoError && pos == old(pos)
      ensures r.Ok? ==> r.value == MDHeaderArray(Reservation(old(pos), headerSize + kindSize * count), headerSize, kindSize)
                        && pos == old(pos) + headerSize + kindSize * count
    {
      var res := ReserveRaw(headerSize + kindSize * count, setLenOk);
      if res.Err? {
        return Err(res.error);
      }
      return Ok(MDHeaderArray(res.value, headerSize, kindSize));
    }

    /**
     * `MDItem::write`: the item's bytes at the reservation, then the cursor
     * back at `pos`. A failed write leaves the cursor at the reservation.
     */
    method WriteItem(item: Reserved, bytes: seq<u8>, writeOk: bool) returns (r: Result<(), IoError>)
      requires item.MDItem? && |bytes| == item.kindSize
      modifies this
      ensures pos == old(pos) && len == old(len)
      ensures writeOk ==> r.Ok? && file == WriteAt(old(file), item.reservation.pos, bytes) && cursor == pos
      ensures !writeOk ==> r.Err? && file == old(file) && cursor == item.reservation.pos
    {
      var ret := pos;
      cursor := item.reservation.pos;
      if !writeOk {
        return Err(IoError);
      }
      file := WriteAt(file, cursor, bytes);
      cursor := ret;
      return Ok(());
    }

    /** `MDArray::write`: element `index` at `pos + kindSize * index`; the cursor stays past it. */
    method WriteElement(handle: Reserved, index: nat, bytes: seq<u8>, writeOk: bool) returns (r: Result<(), IoError>)
      requires handle.MDArray? && |bytes| == handle.kindSize
      modifies this
      ensures pos == old(pos) && len == old(len)
      ensures writeOk ==> r.Ok? && file == WriteAt(old(file), handle.reservation.pos + handle.kindSize * index, bytes)
                          && cursor == handle.reservation.pos + handle.kindSize * index + |bytes|
      ensures !writeOk ==> r.Err? && file == old(file)
    {
      cursor := handle.reservation.pos + handle.kindSize * index;
      if !writeOk {
        return Err(IoError);
      }
      file := WriteAt(file, cursor, bytes);
      cursor := cursor + |bytes|;
      return Ok(());
    }

    /** `MDHeaderArray::write_header`: the header at the start of the reservation. */
    method WriteHeader(handle: Reserved, bytes: seq<u8>, writeOk: bool) returns (r: Result<(), IoError>)
      requires handle.MDHeaderArray? && |bytes| == handle.headerSize
      modifies this
      ensures pos == old(pos) && len == old(len)
      ensures writeOk ==> r.Ok? && file == WriteAt(old(file), handle.reservation.pos, bytes)
                          && cursor == handle.reservation.pos + |bytes|
      ensures !writeOk ==> r.Err? && file == old(file)
    {
      cursor := handle.reservation.pos;
      if !writeOk {
        return Err(IoError);
      }
      file := WriteAt(file, cursor, bytes);
      cursor := cursor + |bytes|;
      return Ok(());
    }

    /** `MDHeaderArray::write`: element `index` after the header, at `pos + headerSize + kindSize * index`. */
    method WriteHeaderElement(handle: Reserved, index: nat, bytes: seq<u8>, writeOk: bool) returns (r: Result<(), IoError>)
      requires handle.MDHeaderArray? && |bytes| == handle.kindSize
      modifies this
      ensures pos == old(pos) && len == old(len)
      ensures writeOk ==> r.Ok? && file == WriteAt(old(file), handle.reservation.pos + handle.headerSize + handle.kindSize * index, bytes)
                          && cursor == handle.reservation.pos + handle.headerSize + handle.kindSize * index + |bytes|
      ensures !writeOk ==> r.Err? && file == old(file)
    {
      cursor := handle.reservation.pos + handle.headerSize + handle.kindSize * index;
      if !writeOk {
        return Err(IoError);
      }
      file := WriteAt(file, cursor, bytes);
      cursor := cursor + |bytes|;
      return Ok(());
    }
  }

  /**
   * Two reservations in a row are adjacent and do not overlap, and both lie
   * below the grown length; they both succeed whenever every `set_len` does.
   */
  method ReserveTwice(fw: FileWriter, a: nat, b: nat, okA: bool, okB: bool) returns (ra: Result<Reservation, IoError>, rb: Result<Reservation, IoError>)
    requires fw.Valid()
    modifies fw
    ensures ra.Ok? && rb.Ok? ==> ra.value.pos + ra.value.size == rb.value.pos
    ensures ra.Ok? && rb.Ok? ==> rb.value.pos + rb.value.size <= fw.len
    ensures okA && okB ==> ra.Ok? && rb.Ok?
    ensures ra.Err? <==> old(fw.len - fw.pos) < a && !okA
  {
    ra := fw.ReserveRaw(a, okA);
    rb := fw.ReserveRaw(b, okB);
  }

  /** The writes of a handle stay inside its reservation: element `index` of an array of `count`. */
  lemma ArrayElementInside(handle: Reserved, index: nat, count: nat)
    requires handle.MDArray? && handle.reservation.size == handle.kindSize * count && index < count
    ensures handle.reservation.pos <= handle.reservation.pos + handle.kindSize * index
    ensures handle.reservation.pos + handle.kindSize * index + handle.kindSize
            <= handle.reservation.pos + handle.reservation.size
  {
    ElementInside(handle.reservation.pos, handle.kindSize, index, count);
  }

  /** Element `index` of a header array of `count` lies past the header and inside the reservation. */
  lemma HeaderElementInside(handle: Reserved, index: nat, count: nat)
    requires handle.MDHeaderArray? && handle.reservation.size == handle.headerSize + handle.kindSize * count
    requires index < count
    ensures handle.reservation.pos + handle.headerSize <= handle.reservation.pos + handle.headerSize + handle.kindSize * index
    ensures handle.reservation.pos + handle.headerSize + handle.kindSize * index + handle.kindSize
            <= handle.reservation.pos + handle.reservation.size
  {
    ElementInside(handle.reservation.pos + handle.headerSize, handle.kindSize, index, count);
  }
}
