/**
 * `RawVec`: the buffer behind `PageVec`, a pointer and a capacity in
 * elements. It decides how much to grow (amortised doubling with a minimum
 * non-zero capacity), checks for arithmetic and layout overflow, and asks
 * the allocator for memory.
 *
 * The allocator is an oracle: a `Grant` is the slice `alloc`/`grow`/`shrink`
 * returned (its address and length in bytes), `None` an `AllocError`.
 */
module RawVec {
  import opened Wrappers

  const ISIZE_MAX: int := 0x7FFF_FFFF_FFFF_FFFF
  /** `USIZE_BITS` on the 64-bit target. */
  const USIZE_BITS: nat := 64

  datatype TryReserveError = CapacityOverflow | AllocError(layoutSize: nat)

  /** The slice an allocator call returned: where it starts and how many bytes it holds. */
  datatype Grant = Grant(addr: nat, len: nat)

  /** `usize::wrapping_sub` on two `usize` values. */
  function WrappingSub(a: nat, b: nat): (r: nat)
    requires a <= USIZE_MAX && b <= USIZE_MAX
    ensures r <= USIZE_MAX
    ensures r == if a >= b then a - b else a - b + USIZE_MAX + 1
  {
    (a - b) % (USIZE_MAX + 1)
  }

  /** `needs_to_grow`: the extra elements do not fit in `capacity - len` (wrapping). */
  predicate NeedsToGrow(capacity: nat, len: nat, additional: nat)
    requires capacity <= USIZE_MAX && len <= USIZE_MAX
  {
    additional > WrappingSub(capacity, len)
  }

  /**
   * While the length is within the capacity, growing is needed exactly when
   * `len + additional` exceeds the capacity.
   */
  lemma NeedsToGrowIff(capacity: nat, len: nat, additional: nat)
    requires capacity <= USIZE_MAX && len <= capacity
    ensures NeedsToGrow(capacity, len, additional) <==> len + additional > capacity
  {
  }

  /**
   * A length beyond the capacity wraps the subtraction around, so only an
   * enormous `additional` asks for growth: the buffer reports no need to grow
   * for any `additional` up to `2^64 - (len - capacity)`.
   */
  lemma NeedsToGrowPastCapacity(capacity: nat, len: nat, additional: nat)
    requires capacity < len <= USIZE_MAX && additional <= USIZE_MAX + 1 - (len - capacity)
    ensures !NeedsToGrow(capacity, len, additional)
  {
  }

  /** The smallest capacity a non-empty buffer of this element size is given. */
  function MinNonZeroCap(elemSize: nat): nat {
    if elemSize == 1 then 8 else if elemSize <= 1024 then 4 else 1
  }

  /**
   * The capacity `grow_amortized` asks for: at least the required capacity,
   * at least double the current one, and at least the minimum non-zero
   * capacity, and no more than the largest of these.
   */
  function AmortizedCap(cap: nat, required: nat, elemSize: nat): (c: nat)
    ensures c >= required && c >= 2 * cap && c >= MinNonZeroCap(elemSize)
    ensures c == required || c == 2 * cap || c == MinNonZeroCap(elemSize)
  {
    var doubled := if 2 * cap >= required then 2 * cap else required;
    if MinNonZeroCap(elemSize) >= doubled then MinNonZeroCap(elemSize) else doubled
  }

  /** `capacity_from_bytes`: how many whole elements fit in `excess` bytes. */
  function CapacityFromBytes(excess: nat, elemSize: nat): (c: nat)
    requires elemSize > 0
    ensures c * elemSize <= excess < (c + 1) * elemSize
  {
    excess / elemSize
  }

  /** `alloc_guard`: only targets narrower than 64 bits reject sizes above `isize::MAX`. */
  function AllocGuard(allocSize: nat, usizeBits: nat): (r: Result<(), TryReserveError>)
    requires usizeBits in {16, 32, 64}
    ensures r.Err? ==> r.error == CapacityOverflow
    ensures r.Err? <==> usizeBits < 64 && allocSize > IsizeMax(usizeBits)
  {
    if usizeBits < 64 && allocSize > IsizeMax(usizeBits) then Err(CapacityOverflow) else Ok(())
  }

  function IsizeMax(bits: nat): nat
    requires bits >= 1
  {
    Pow2(bits - 1) - 1
  }

  function Pow2(n: nat): (p: nat)
    ensures p >= 1
  {
    if n == 0 then 1 else 2 * Pow2(n - 1)
  }

  /** On the 64-bit target the guard never fires. */
  lemma AllocGuardNeverFailsOn64(allocSize: nat)
    ensures AllocGuard(allocSize, USIZE_BITS).Ok?
  {
  }

  /**
   * `Layout::array::<T>(n)`: the byte size of `n` elements, or an error when
   * it overflows `isize::MAX` once rounded up to the alignment.
   */
  function LayoutArray(n: nat, elemSize: nat, align: nat): (r: Option<nat>)
    requires align >= 1
    ensures r.Some? ==> r.value == n * elemSize && r.value <= ISIZE_MAX
    ensures r.None? <==> n * elemSize > ISIZE_MAX - (align - 1)
  {
    if n * elemSize > ISIZE_MAX - (align - 1) then None else Some(n * elemSize)
  }

  /**
   * When the allocator hands back at least the bytes asked for, the capacity
   * read back from the slice covers the capacity requested.
   */
  lemma {:induction false} GrantCoversRequest(target: nat, elemSize: nat, granted: nat)
    requires elemSize > 0 && granted >= target * elemSize
    ensures CapacityFromBytes(granted, elemSize) >= target
  {
    var c := CapacityFromBytes(granted, elemSize);
    assert target * elemSize < (c + 1) * elemSize;
    MulMonotone(c + 1, target, elemSize);
  }

  /** Reading back a slice of exactly `target` elements gives back `target`. */
  lemma CapacityExact(target: nat, elemSize: nat)
    requires elemSize > 0
    ensures CapacityFromBytes(target * elemSize, elemSize) == target
  {
    var c := CapacityFromBytes(target * elemSize, elemSize);
    GrantCoversRequest(target, elemSize, target * elemSize);
    MulMonotone(target + 1, c, elemSize);
  }

  lemma MulMonotone(a: nat, b: nat, k: nat)
    ensures a <= b ==> a * k <= b * k
  {
  }

  class RawVec {
    /** `size_of::<T>()` and `align_of::<T>()`. */
    const elemSize: nat
    const align: nat
    var ptr: nat
    var cap: nat

    ghost predicate Valid()
      reads this
    {
      && align >= 1
      && (elemSize == 0 ==> cap == 0)
      && cap * elemSize <= ISIZE_MAX
    }

    /** `new_in`: a dangling pointer and no capacity. */
    constructor NewIn(elemSize: nat, align: nat)
      requires align >= 1
      ensures Valid() && this.elemSize == elemSize && this.align == align
      ensures cap == 0
      ensures elemSize > 0 ==> Capacity() == 0
    {
      this.elemSize := elemSize;
      this.align := align;
      ptr := align;
      cap := 0;
    }

    /**
     * `with_capacity_in`: a zero-sized element type gets no allocation;
     * otherwise exactly the layout of `capacity` elements is requested. A
     * layout overflow panics and an allocation failure aborts, so both are
     * excluded here.
     */
    constructor WithCapacityIn(capacity: nat, elemSize: nat, align: nat, grant: Grant)
      requires align >= 1
      requires elemSize > 0 ==> LayoutArray(capacity, elemSize, align).Some?
      requires elemSize > 0 ==> capacity * elemSize <= grant.len <= ISIZE_MAX
      ensures Valid() && this.elemSize == elemSize && this.align == align
      ensures elemSize == 0 ==> cap == 0
      ensures elemSize > 0 ==> cap >= capacity && ptr == grant.addr
    {
      this.elemSize := elemSize;
      this.align := align;
      if elemSize == 0 {
        ptr := align;
        cap := 0;
      } else {
        ptr := grant.addr;
        cap := CapacityFromBytes(grant.len, elemSize);
        GrantCoversRequest(capacity, elemSize, grant.len);
      }
    }

    /** `capacity()`: `usize::MAX` for zero-sized elements, the stored capacity otherwise. */
    function Capacity(): nat
      reads this
    {
      if elemSize == 0 then USIZE_MAX else cap
    }

    /**
     * `current_memory`: the live allocation, if there is one, as a byte size
     * that holds exactly `cap` elements and that `Valid` keeps within
     * `isize::MAX`.
     */
    function CurrentMemory(): (m: Option<nat>)
      reads this
      ensures m.None? <==> elemSize == 0 || cap == 0
      ensures m.Some? ==> CapacityFromBytes(m.value, elemSize) == cap && m.value >= elemSize
      ensures Valid() && m.Some? ==> m.value <= ISIZE_MAX
    {
      if elemSize == 0 || cap == 0 then None
      else
        CapacityExact(cap, elemSize);
        MulMonotone(1, cap, elemSize);
        Some(cap * elemSize)
    }

    /** `set_ptr`: adopt the slice and read the capacity back from its length. */
    method SetPtr(g: Grant)
      requires Valid() && elemSize > 0 && g.len <= ISIZE_MAX
      modifies this
      ensures Valid()
      ensures ptr == g.addr && cap == CapacityFromBytes(g.len, elemSize)
    {
      ptr := g.addr;
      cap := CapacityFromBytes(g.len, elemSize);
    }

    /**
     * `finish_grow` followed by `set_ptr`: a layout overflow is a
     * `CapacityOverflow`, an allocator refusal an `AllocError` carrying the
     * layout size; nothing changes on either error.
     */
    method FinishGrow(target: nat, grant: Option<Grant>) returns (r: Result<(), TryReserveError>)
      requires Valid() && elemSize > 0
      requires grant.Some? ==> grant.value.len <= ISIZE_MAX
      modifies this
      ensures Valid()
      ensures LayoutArray(target, elemSize, align).None? ==> r == Err(CapacityOverflow) && unchanged(this)
      ensures LayoutArray(target, elemSize, align).Some? && grant.None? ==>
                r == Err(AllocError(target * elemSize)) && unchanged(this)
      ensures LayoutArray(target, elemSize, align).Some? && grant.Some? ==>
                && r == Ok(())
                && ptr == grant.value.addr && cap == CapacityFromBytes(grant.value.len, elemSize)
    {
      var layout := LayoutArray(target, elemSize, align);
      if layout.None? {
        return Err(CapacityOverflow);
      }
      // `alloc_guard` cannot fire on the 64-bit target
      assert AllocGuard(layout.value, USIZE_BITS).Ok? by { AllocGuardNeverFailsOn64(layout.value); }
      if grant.None? {
        return Err(AllocError(layout.value));
      }
      SetPtr(grant.value);
      r := Ok(());
    }

    /**
     * `grow_amortized`: zero-sized elements and an overflowing
     * `len + additional` are a `CapacityOverflow`; otherwise ask for
     * `AmortizedCap`.
     */
    method GrowAmortized(len: nat, additional: nat, grant: Option<Grant>) returns (r: Result<(), TryReserveError>)
      requires Valid()
      requires grant.Some? ==> grant.value.len <= ISIZE_MAX
      modifies this
      ensures Valid()
      ensures elemSize == 0 || len + additional > USIZE_MAX ==> r == Err(CapacityOverflow) && unchanged(this)
      ensures r.Err? ==> unchanged(this)
      ensures elemSize > 0 && len + additional <= USIZE_MAX ==>
                var target := AmortizedCap(old(cap), len + additional, elemSize);
                && (LayoutArray(target, elemSize, align).None? ==> r == Err(CapacityOverflow))
                && (LayoutArray(target, elemSize, align).Some? && grant.None? ==> r == Err(AllocError(target * elemSize)))
                && (LayoutArray(target, elemSize, align).Some? && grant.Some? ==>
                      r == Ok(()) && ptr == grant.value.addr && cap == CapacityFromBytes(grant.value.len, elemSize))
    {
      if elemSize == 0 {
        return Err(CapacityOverflow);
      }
      if len + additional > USIZE_MAX {
        return Err(CapacityOverflow);
      }
      var required := len + additional;
      var c := if cap * 2 >= required then cap * 2 else required;
      var minNonZero := if elemSize == 1 then 8 else if elemSize <= 1024 then 4 else 1;
      c := if minNonZero >= c then minNonZero else c;
      assert c == AmortizedCap(cap, required, elemSize);
      r := FinishGrow(c, grant);
    }

    /** `grow_exact`: like `grow_amortized` but asks for exactly `len + additional`. */
    method GrowExact(len: nat, additional: nat, grant: Option<Grant>) returns (r: Result<(), TryReserveError>)
      requires Valid()
      requires grant.Some? ==> grant.value.len <= ISIZE_MAX
      modifies this
      ensures Valid()
      ensures elemSize == 0 || len + additional > USIZE_MAX ==> r == Err(CapacityOverflow) && unchanged(this)
      ensures r.Err? ==> unchanged(this)
      ensures elemSize > 0 && len + additional <= USIZE_MAX ==>
                && (LayoutArray(len + additional, elemSize, align).None? ==> r == Err(CapacityOverflow))
                && (LayoutArray(len + additional, elemSize, align).Some? && grant.None? ==>
                      r == Err(AllocError((len + additional) * elemSize)))
                && (LayoutArray(len + additional, elemSize, align).Some? && grant.Some? ==>
                      r == Ok(()) && ptr == grant.value.addr && cap == CapacityFromBytes(grant.value.len, elemSize))
    {
      if elemSize == 0 {
        return Err(CapacityOverflow);
      }
      if len + additional > USIZE_MAX {
        return Err(CapacityOverflow);
      }
      r := FinishGrow(len + additional, grant);
    }

    /** `try_reserve`: grow (amortised) only when `needs_to_grow`. */
    method TryReserve(len: nat, additional: nat, grant: Option<Grant>) returns (r: Result<(), TryReserveError>)
      requires Valid() && len <= USIZE_MAX
      requires grant.Some? ==> grant.value.len <= ISIZE_MAX
      modifies this
      ensures Valid()
      ensures !NeedsToGrow(old(Capacity()), len, additional) ==> r == Ok(()) && unchanged(this)
      ensures r.Err? ==> unchanged(this)
      ensures NeedsToGrow(old(Capacity()), len, additional) && elemSize > 0 && len + additional <= USIZE_MAX ==>
                var target := AmortizedCap(old(cap), len + additional, elemSize);
                && (LayoutArray(target, elemSize, align).None? ==> r == Err(CapacityOverflow))
                && (LayoutArray(target, elemSize, align).Some? && grant.None? ==> r == Err(AllocError(target * elemSize)))
                && (LayoutArray(target, elemSize, align).Some? && grant.Some? ==>
                      r == Ok(()) && ptr == grant.value.addr && cap == CapacityFromBytes(grant.value.len, elemSize))
      ensures NeedsToGrow(old(Capacity()), len, additional) && (elemSize == 0 || len + additional > USIZE_MAX) ==>
                r == Err(CapacityOverflow)
    {
      if NeedsToGrow(Capacity(), len, additional) {
        r := GrowAmortized(len, additional, grant);
      } else {
        r := Ok(());
      }
    }

    /** `try_reserve_exact`: grow to exactly `len + additional` only when `needs_to_grow`. */
    method TryReserveExact(len: nat, additional: nat, grant: Option<Grant>) returns (r: Result<(), TryReserveError>)
      requires Valid() && len <= USIZE_MAX
      requires grant.Some? ==> grant.value.len <= ISIZE_MAX
      modifies this
      ensures Valid()
      ensures !NeedsToGrow(old(Capacity()), len, additional) ==> r == Ok(()) && unchanged(this)
      ensures r.Err? ==> unchanged(this)
      ensures NeedsToGrow(old(Capacity()), len, additional) && elemSize > 0 && len + additional <= USIZE_MAX ==>
                && (LayoutArray(len + additional, elemSize, align).None? ==> r == Err(CapacityOverflow))
                && (LayoutArray(len + additional, elemSize, align).Some? && grant.None? ==>
                      r == Err(AllocError((len + additional) * elemSize)))
                && (LayoutArray(len + additional, elemSize, align).Some? && grant.Some? ==>
                      r == Ok(()) && ptr == grant.value.addr && cap == CapacityFromBytes(grant.value.len, elemSize))
      ensures NeedsToGrow(old(Capacity()), len, additional) && (elemSize == 0 || len + additional > USIZE_MAX) ==>
                r == Err(CapacityOverflow)
    {
      if NeedsToGrow(Capacity(), len, additional) {
        r := GrowExact(len, additional, grant);
      } else {
        r := Ok(());
      }
    }

    /**
     * `shrink`: the caller must not ask for more than the capacity (an
     * assertion in the source). With no live allocation it is an `Ok` no-op.
     */
    method Shrink(amount: nat, grant: Option<Grant>) returns (r: Result<(), TryReserveError>)
      requires Valid() && amount <= Capacity()
      requires grant.Some? ==> grant.value.len <= ISIZE_MAX
      modifies this
      ensures Valid()
      ensures old(CurrentMemory()).None? ==> r == Ok(()) && unchanged(this)
      ensures old(CurrentMemory()).Some? && grant.None? ==> r == Err(AllocError(amount * elemSize)) && unchanged(this)
      ensures old(CurrentMemory()).Some? && grant.Some? ==>
                r == Ok(()) && ptr == grant.value.addr && cap == CapacityFromBytes(grant.value.len, elemSize)
    {
      if CurrentMemory().None? {
        return Ok(());
      }
      var newSize := amount * elemSize;
      if grant.None? {
        return Err(AllocError(newSize));
      }
      SetPtr(grant.value);
      r := Ok(());
    }
  }

  /**
   * A grow that succeeds with an allocator honouring the request leaves at
   * least `len + additional` slots: the amortised target already covers the
   * requirement and the capacity read back covers the target.
   */
  lemma AmortizedGrowSuffices(cap: nat, len: nat, additional: nat, elemSize: nat, granted: nat)
    requires elemSize > 0
    requires granted >= AmortizedCap(cap, len + additional, elemSize) * elemSize
    ensures CapacityFromBytes(granted, elemSize) >= len + additional
    ensures CapacityFromBytes(granted, elemSize) >= 2 * cap
  {
    GrantCoversRequest(AmortizedCap(cap, len + additional, elemSize), elemSize, granted);
  }
}
