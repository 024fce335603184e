/**
 * `PageVec<T>`: a vector whose buffer (`RawVec`) comes from the page
 * allocator. The model keeps the buffer's elements in an array whose length
 * is the buffer's capacity; `Contents()` is the live prefix of length `len`.
 *
 * The page allocator hands back exactly the bytes a layout asks for, so each
 * growth is decided by one oracle: `mapped` is `None` when the allocator
 * fails, or the address of the fresh buffer. A failed reservation panics or
 * aborts in the source (`handle_reserve`); here it is an `Err` result that
 * leaves the vector as it was.
 */
module PageVec {
  import opened Wrappers
  import RawVec

  /** The elements of `s` that satisfy `f`, in order. */
  function Filter<T>(s: seq<T>, f: T -> bool): (r: seq<T>)
    ensures |r| <= |s|
  {
    if s == [] then [] else Filter(s[..|s| - 1], f) + (if f(s[|s| - 1]) then [s[|s| - 1]] else [])
  }

  /**
   * What `dedup_by` keeps of the first `n` elements of `s`: the first
   * element, then every element that is not in the same bucket as the
   * element most recently kept.
   */
  function DedupPrefix<T>(s: seq<T>, n: nat, sameBucket: (T, T) -> bool): (r: seq<T>)
    requires n <= |s|
    ensures |r| <= n
    ensures n > 0 ==> |r| > 0 && r[0] == s[0]
  {
    if n <= 1 then s[..n]
    else
      var d := DedupPrefix(s, n - 1, sameBucket);
      if sameBucket(s[n - 1], d[|d| - 1]) then d else d + [s[n - 1]]
  }

  /** `dedup_by` applied to the whole sequence. */
  function Dedup<T>(s: seq<T>, sameBucket: (T, T) -> bool): seq<T> {
    DedupPrefix(s, |s|, sameBucket)
  }

  /** Two neighbours in a deduplicated prefix are never in the same bucket. */
  lemma {:induction false} DedupNoAdjacentSameBucket<T>(s: seq<T>, n: nat, sameBucket: (T, T) -> bool, i: nat)
    requires n <= |s| && i + 1 < |DedupPrefix(s, n, sameBucket)|
    ensures !sameBucket(DedupPrefix(s, n, sameBucket)[i + 1], DedupPrefix(s, n, sameBucket)[i])
  {
    if n > 1 {
      var d := DedupPrefix(s, n - 1, sameBucket);
      if i + 1 < |d| {
        DedupNoAdjacentSameBucket(s, n - 1, sameBucket, i);
      }
    }
  }

  /** Every kept element comes from the input. */
  lemma {:induction false} DedupKeepsInputElements<T>(s: seq<T>, n: nat, sameBucket: (T, T) -> bool, k: nat)
    requires n <= |s| && k < |DedupPrefix(s, n, sameBucket)|
    ensures exists j :: 0 <= j < n && DedupPrefix(s, n, sameBucket)[k] == s[j]
  {
    if n > 1 {
      var d := DedupPrefix(s, n - 1, sameBucket);
      if k < |d| {
        DedupKeepsInputElements(s, n - 1, sameBucket, k);
      } else {
        assert DedupPrefix(s, n, sameBucket)[k] == s[n - 1];
      }
    } else {
      assert DedupPrefix(s, n, sameBucket)[k] == s[k];
    }
  }

  /** `dedup` (equality as the bucket relation) leaves no two equal neighbours. */
  lemma DedupByEqualityHasNoRepeats<T>(s: seq<T>, i: nat)
    requires i + 1 < |Dedup(s, (a, b) => a == b)|
    ensures Dedup(s, (a, b) => a == b)[i + 1] != Dedup(s, (a, b) => a == b)[i]
  {
    DedupNoAdjacentSameBucket(s, |s|, (a, b) => a == b, i);
  }

  /** `n` copies of `x`. */
  function Repeat<T>(x: T, n: nat): (r: seq<T>)
    ensures |r| == n && forall i :: 0 <= i < n ==> r[i] == x
  {
    if n == 0 then [] else Repeat(x, n - 1) + [x]
  }

  /** `usize::saturating_add`: the sum when it fits, `usize::MAX` otherwise; never less than either operand. */
  function SaturatingAdd(a: nat, b: nat): (r: nat)
    requires a <= USIZE_MAX && b <= USIZE_MAX
    ensures a <= r && b <= r && r <= USIZE_MAX && r <= a + b
    ensures a + b <= USIZE_MAX ==> r == a + b
    ensures a + b > USIZE_MAX ==> r == USIZE_MAX
  {
    if a + b > USIZE_MAX then USIZE_MAX else a + b
  }

  /**
   * The loop of `retain` over the first `n` slots of `a`: each kept element
   * is swapped `del` places down. Returns `del`, the number of rejected
   * elements, which the caller truncates away.
   */
  method RetainInPlace<T>(a: array<T>, n: nat, f: T -> bool) returns (del: nat)
    requires n <= a.Length
    modifies a
    ensures del <= n && a[..n - del] == Filter(old(a[..n]), f)
  {
    ghost var s := a[..n];
    del := 0;
    var i := 0;
    while i < n
      invariant 0 <= del <= i <= n == |s|
      invariant i - del == |Filter(s[..i], f)|
      invariant a[..i - del] == Filter(s[..i], f)
      invariant forall k :: i <= k < n ==> a[k] == s[k]
    {
      ghost var kept := Filter(s[..i], f);
      assert s[..i + 1][..i] == s[..i];
      assert Filter(s[..i + 1], f) == kept + (if f(s[i]) then [s[i]] else []);
      if !f(a[i]) {
        del := del + 1;
      } else if del > 0 {
        a[i - del], a[i] := a[i], a[i - del];
        assert a[..i + 1 - del] == kept + [s[i]];
      } else {
        assert a[..i + 1] == a[..i] + [s[i]];
      }
      i := i + 1;
    }
    assert s[..n] == s;
  }

  /**
   * The loop of `dedup_by` over the first `len` slots of `a`: `nextRead`
   * scans forward and each element not in the same bucket as the last kept
   * one (at `nextWrite - 1`) is swapped to `nextWrite`. Returns `nextWrite`.
   */
  method DedupInPlace<T>(a: array<T>, len: nat, sameBucket: (T, T) -> bool) returns (nextWrite: nat)
    requires len <= a.Length
    modifies a
    ensures nextWrite <= len && a[..nextWrite] == Dedup(old(a[..len]), sameBucket)
  {
    ghost var s := a[..len];
    if len <= 1 {
      return len;
    }
    var nextRead := 1;
    nextWrite := 1;
    while nextRead < len
      invariant 1 <= nextWrite <= nextRead <= len == |s|
      invariant a[..nextWrite] == DedupPrefix(s, nextRead, sameBucket)
      invariant forall k :: nextRead <= k < len ==> a[k] == s[k]
    {
      ghost var d := DedupPrefix(s, nextRead, sameBucket);
      assert a[nextWrite - 1] == d[|d| - 1];
      if !sameBucket(a[nextRead], a[nextWrite - 1]) {
        var x := a[nextRead];
        if nextRead != nextWrite {
          a[nextRead], a[nextWrite] := a[nextWrite], x;
        }
        assert a[..nextWrite + 1] == a[..nextWrite] + [x];
        nextWrite := nextWrite + 1;
      }
      nextRead := nextRead + 1;
    }
  }

  /** The `ptr::copy` of `insert`: slots `index..len` move up by one. */
  method ShiftUp<T>(a: array<T>, index: nat, len: nat)
    requires index <= len < a.Length
    modifies a
    ensures a[..index] == old(a[..index])
    ensures a[index + 1..len + 1] == old(a[index..len])
    ensures a[len + 1..] == old(a[len + 1..])
  {
    var j := len;
    while j > index
      invariant index <= j <= len
      invariant forall k :: 0 <= k <= j ==> a[k] == old(a[k])
      invariant forall k :: j < k <= len ==> a[k] == old(a[k - 1])
      invariant forall k :: len < k < a.Length ==> a[k] == old(a[k])
    {
      a[j] := a[j - 1];
      j := j - 1;
    }
  }

  /** `insert` on the raw slots: shift `index..len` up by one and write `x` at `index`. */
  method InsertAt<T>(a: array<T>, index: nat, len: nat, x: T)
    requires index <= len < a.Length
    modifies a
    ensures a[..len + 1] == old(a[..index]) + [x] + old(a[index..len])
  {
    ShiftUp(a, index, len);
    a[index] := x;
    assert a[..len + 1] == a[..index] + [x] + a[index + 1..len + 1];
  }

  /** The `ptr::copy` of `remove`: slots `index + 1..len` move down by one. */
  method ShiftDown<T>(a: array<T>, index: nat, len: nat)
    requires index < len <= a.Length
    modifies a
    ensures a[..index] == old(a[..index])
    ensures a[index..len - 1] == old(a[index + 1..len])
  {
    var j := index;
    while j + 1 < len
      invariant index <= j < len
      invariant forall k :: 0 <= k < index ==> a[k] == old(a[k])
      invariant forall k :: index <= k < j ==> a[k] == old(a[k + 1])
      invariant forall k :: j < k < len ==> a[k] == old(a[k])
    {
      a[j] := a[j + 1];
      j := j + 1;
    }
  }

  class PageVec<T(0)> {
    const elemSize: nat
    var buf: RawVec.RawVec
    /** The buffer's slots; only the first `len` hold elements. */
    var items: array<T>
    var len: nat
    ghost var Repr: set<object>

    ghost predicate Valid()
      reads this, Repr
    {
      && this in Repr && buf in Repr && items in Repr
      && buf.Valid() && buf.elemSize == elemSize && elemSize > 0
      && items.Length == buf.cap
      && len <= buf.cap
    }

    function Contents(): seq<T>
      reads this, items
      requires len <= items.Length
    {
      items[..len]
    }

    /** `capacity()` of the buffer. */
    function Capacity(): nat
      reads this, Repr
      requires Valid()
    {
      buf.Capacity()
    }

    /** `new_in`: empty, with length 0 and capacity 0. */
    constructor NewIn(elemSize: nat, align: nat)
      requires elemSize > 0 && align >= 1
      ensures Valid() && fresh(Repr) && this.elemSize == elemSize
      ensures Contents() == [] && len == 0 && Capacity() == 0
    {
      this.elemSize := elemSize;
      buf := new RawVec.RawVec.NewIn(elemSize, align);
      items := new T[0];
      len := 0;
      new;
      Repr := {this, buf, items};
    }

    /** The grant the page allocator returns for a buffer of `target` elements. */
    function GrantFor(target: nat, mapped: Option<nat>): Option<RawVec.Grant>
      reads this
    {
      if mapped.Some? && target * elemSize <= RawVec.ISIZE_MAX
      then Some(RawVec.Grant(mapped.value, target * elemSize)) else None
    }

    /** Moves the live elements into a fresh array of the buffer's new capacity. */
    method Relocate()
      requires this in Repr && buf in Repr && items in Repr
      requires buf.Valid() && buf.elemSize == elemSize && elemSize > 0
      requires len <= items.Length && len <= buf.cap
      modifies this
      ensures Valid() && fresh(items) && Repr == old(Repr) - {old(items)} + {items}
      ensures buf == old(buf) && len == old(len) && Contents() == old(Contents())
    {
      var moved := new T[buf.cap];
      var i := 0;
      while i < len
        invariant 0 <= i <= len
        invariant forall k :: 0 <= k < i ==> moved[k] == items[k]
        modifies moved
      {
        moved[i] := items[i];
        i := i + 1;
      }
      assert moved[..len] == items[..len];
      Repr := Repr - {items} + {moved};
      items := moved;
    }

    /**
     * `reserve`: make room for `additional` more elements, growing with the
     * amortised policy when `needs_to_grow`.
     */
    method Reserve(additional: nat, mapped: Option<nat>) returns (r: Result<(), RawVec.TryReserveError>)
      requires Valid()
      modifies Repr
      ensures Valid() && fresh(Repr - old(Repr))
      ensures len == old(len) && Contents() == old(Contents())
      ensures !RawVec.NeedsToGrow(old(Capacity()), len, additional) ==> r.Ok? && buf.cap == old(buf.cap)
      ensures r.Ok? ==> Capacity() >= len + additional
      ensures r.Ok? && RawVec.NeedsToGrow(old(Capacity()), len, additional) ==>
                Capacity() == RawVec.AmortizedCap(old(Capacity()), len + additional, elemSize)
      ensures r.Err? ==> buf.cap == old(buf.cap)
    {
      RawVec.NeedsToGrowIff(buf.Capacity(), len, additional);
      var target := RawVec.AmortizedCap(buf.cap, len + additional, elemSize);
      var oldCap := buf.cap;
      r := buf.TryReserve(len, additional, GrantFor(target, mapped));
      if r.Ok? && buf.cap != oldCap {
        RawVec.GrantCoversRequest(target, elemSize, target * elemSize);
        RawVec.CapacityExact(target, elemSize);
        Relocate();
      } else if r.Ok? {
        RawVec.CapacityExact(target, elemSize);
      }
    }

    /** `push`: reserve one slot only when full, then append. */
    method Push(x: T, mapped: Option<nat>) returns (r: Result<(), RawVec.TryReserveError>)
      requires Valid()
      modifies Repr
      ensures Valid() && fresh(Repr - old(Repr))
      ensures r.Ok? ==> Contents() == old(Contents()) + [x] && len == old(len) + 1
      ensures r.Err? ==> Contents() == old(Contents())
      ensures old(len) < old(Capacity()) ==> r.Ok? && buf.cap == old(buf.cap)
      ensures len <= Capacity()
    {
      if len == buf.Capacity() {
        r := Reserve(1, mapped);
        if r.Err? {
          return;
        }
      } else {
        r := Ok(());
      }
      WriteNext(x);
    }

    /** `pop`: `None` on empty, otherwise the last element, which is removed. */
    method Pop() returns (x: Option<T>)
      requires Valid()
      modifies this
      ensures Valid() && Repr == old(Repr) && items == old(items) && buf == old(buf)
      ensures old(len) == 0 ==> x.None? && len == 0
      ensures old(len) > 0 ==> x == Some(old(Contents())[old(len) - 1]) && Contents() == old(Contents())[..old(len) - 1]
    {
      if len == 0 {
        return None;
      }
      len := len - 1;
      x := Some(items[len]);
    }

    /** `truncate`: keep the first `n` elements; a larger `n` changes nothing. */
    method Truncate(n: nat)
      requires Valid()
      modifies this
      ensures Valid() && Repr == old(Repr) && items == old(items) && buf == old(buf)
      ensures n > old(len) ==> len == old(len)
      ensures Contents() == if n > old(len) then old(Contents()) else old(Contents())[..n]
    {
      if n > len {
        return;
      }
      len := n;
    }

    /** `clear` is `truncate(0)`. */
    method Clear()
      requires Valid()
      modifies this
      ensures Valid() && Repr == old(Repr) && items == old(items) && buf == old(buf)
      ensures Contents() == [] && buf.cap == old(buf.cap)
    {
      Truncate(0);
    }

    /** `swap_remove`: the last element moves into the hole left by the removed one. */
    method SwapRemove(index: nat) returns (x: T)
      requires Valid() && index < len
      modifies this, items
      ensures Valid() && Repr == old(Repr) && items == old(items) && buf == old(buf)
      ensures x == old(Contents())[index]
      ensures len == old(len) - 1
      ensures Contents() == if index == old(len) - 1 then old(Contents())[..index]
                            else old(Contents())[..index] + [old(Contents())[old(len) - 1]] + old(Contents())[index + 1..old(len) - 1]
    {
      var last := items[len - 1];
      len := len - 1;
      x := items[index];
      items[index] := last;
    }

    /** `insert`: panics unless `index <= len`; shifts the tail up by one. */
    method Insert(index: nat, x: T, mapped: Option<nat>) returns (r: Result<(), RawVec.TryReserveError>)
      requires Valid() && index <= len
      modifies Repr
      ensures Valid() && fresh(Repr - old(Repr))
      ensures r.Ok? ==> Contents() == old(Contents())[..index] + [x] + old(Contents())[index..]
      ensures r.Err? ==> Contents() == old(Contents())
    {
      if len == buf.Capacity() {
        r := Reserve(1, mapped);
        if r.Err? {
          return;
        }
      } else {
        r := Ok(());
      }
      InsertAt(items, index, len, x);
      len := len + 1;
    }

    /** `remove`: panics unless `index < len`; shifts the tail down by one. */
    method Remove(index: nat) returns (x: T)
      requires Valid() && index < len
      modifies this, items
      ensures Valid() && Repr == old(Repr) && items == old(items) && buf == old(buf)
      ensures x == old(Contents())[index]
      ensures Contents() == old(Contents())[..index] + old(Contents())[index + 1..]
    {
      ghost var s := Contents();
      x := items[index];
      ShiftDown(items, index, len);
      len := len - 1;
      assert Contents() == s[..index] + s[index + 1..];
    }

    /**
     * `retain`: keeps the elements satisfying `f`, in order, by swapping each
     * kept element `del` places down and truncating the rest.
     */
    method Retain(f: T -> bool)
      requires Valid()
      modifies this, items
      ensures Valid() && Repr == old(Repr) && items == old(items) && buf == old(buf)
      ensures Contents() == Filter(old(Contents()), f)
    {
      var n := len;
      var del := RetainInPlace(items, n, f);
      if del > 0 {
        Truncate(n - del);
      }
    }

    /**
     * `dedup_by`: `next_read` scans forward, and each element not in the
     * same bucket as the last kept one is swapped to `next_write`.
     */
    method DedupBy(sameBucket: (T, T) -> bool)
      requires Valid()
      modifies this, items
      ensures Valid() && Repr == old(Repr) && items == old(items) && buf == old(buf)
      ensures Contents() == Dedup(old(Contents()), sameBucket)
    {
      if len <= 1 {
        return;
      }
      var nextWrite := DedupInPlace(items, len, sameBucket);
      Truncate(nextWrite);
    }

    /** `extend_with`: reserve `n` slots, then write `n` copies of `value`. */
    method ExtendWith(n: nat, value: T, mapped: Option<nat>) returns (r: Result<(), RawVec.TryReserveError>)
      requires Valid()
      modifies Repr
      ensures Valid() && fresh(Repr - old(Repr))
      ensures r.Ok? ==> Contents() == old(Contents()) + Repeat(value, n)
      ensures r.Err? ==> Contents() == old(Contents())
    {
      r := Reserve(n, mapped);
      if r.Err? {
        return;
      }
      ghost var s := Contents();
      // the length is kept in a local and stored once the writes are done
      var localLen := len;
      var k := 0;
      while k < n
        invariant 0 <= k <= n && localLen == |s| + k <= items.Length
        invariant items[..localLen] == s + Repeat(value, k)
        modifies items
      {
        items[localLen] := value;
        localLen := localLen + 1;
        k := k + 1;
      }
      len := localLen;
    }

    /** `resize`: append copies of `value` up to `newLen`, or truncate to it. */
    method Resize(newLen: nat, value: T, mapped: Option<nat>) returns (r: Result<(), RawVec.TryReserveError>)
      requires Valid()
      modifies Repr
      ensures Valid() && fresh(Repr - old(Repr))
      ensures r.Ok? ==> Contents() == if newLen > old(len) then old(Contents()) + Repeat(value, newLen - old(len))
                                      else old(Contents())[..newLen]
      ensures r.Err? ==> Contents() == old(Contents())
    {
      if newLen > len {
        r := ExtendWith(newLen - len, value, mapped);
      } else {
        Truncate(newLen);
        r := Ok(());
      }
    }

    /**
     * `extend_desugared` over a slice iterator: push each element, reserving
     * `lower.saturating_add(1)` (the iterator's remaining count plus one)
     * whenever the buffer is full. `mapped[k]` is the allocator's answer to
     * the reservation made before element `k`, if one is made.
     */
    method ExtendDesugared(iter: seq<T>, mapped: seq<Option<nat>>) returns (r: Result<(), RawVec.TryReserveError>)
      requires Valid() && |mapped| == |iter| && |iter| <= USIZE_MAX
      modifies Repr
      ensures Valid() && fresh(Repr - old(Repr))
      ensures r.Ok? ==> Contents() == old(Contents()) + iter
      ensures r.Err? ==> exists k :: 0 <= k < |iter| && Contents() == old(Contents()) + iter[..k]
    {
      ghost var s := Contents();
      var k := 0;
      while k < |iter|
        invariant 0 <= k <= |iter| && Valid() && fresh(Repr - old(Repr))
        invariant Contents() == s + iter[..k]
        decreases |iter| - k
      {
        if len == buf.Capacity() {
          var lower := |iter| - k - 1;
          r := Reserve(SaturatingAdd(lower, 1), mapped[k]);
          if r.Err? {
            return;
          }
        }
        WriteNext(iter[k]);
        assert iter[..k + 1] == iter[..k] + [iter[k]];
        k := k + 1;
      }
      assert iter[..|iter|] == iter;
      r := Ok(());
    }

    /** Writes `x` into the first free slot and counts it, as `ptr::write` then `set_len` do. */
    method WriteNext(x: T)
      requires Valid() && len < Capacity()
      modifies this, items
      ensures Valid() && Repr == old(Repr) && items == old(items) && buf == old(buf)
      ensures Contents() == old(Contents()) + [x]
    {
      items[len] := x;
      len := len + 1;
    }
  }
}
