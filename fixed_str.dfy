/**
 * Fixed-capacity strings used on the crash path instead of `String`:
 * `FixedStr<N>` is a byte array of capacity `N` plus a fill index, and
 * `FixedCStr<N>` wraps one and always keeps room for a terminating NUL.
 */
module FixedStr {
  import opened Wrappers

  /** `fmt::Error`, the only failure of `write_str`. */
  datatype FmtError = FmtError

  /** `FixedStr<N>`: `bytes[..ind]` is the text, every byte after it is zero. */
  class FixedStr {
    const cap: nat
    const bytes: array<u8>
    var ind: nat

    ghost predicate Valid()
      reads this, bytes
    {
      && bytes.Length == cap
      && ind <= cap
      && forall k :: ind <= k < cap ==> bytes[k] == 0
    }

    /** `as_ref`: the text written so far. */
    function AsRef(): (r: seq<u8>)
      reads this, bytes
      requires Valid()
      ensures |r| == ind <= cap
    {
      bytes[..ind]
    }

    /** `new`: an all-zero buffer holding the empty string. */
    constructor (cap: nat)
      ensures Valid() && this.cap == cap && fresh(bytes)
      ensures AsRef() == []
    {
      this.cap := cap;
      bytes := new u8[cap](_ => 0);
      ind := 0;
    }

    /** `from_slice`: `None` when the slice is longer than the capacity. */
    static method FromSlice(cap: nat, buf: seq<u8>) returns (r: Option<FixedStr>)
      ensures r.None? <==> |buf| > cap
      ensures r.Some? ==> fresh(r.value) && fresh(r.value.bytes) && r.value.Valid()
                          && r.value.cap == cap && r.value.AsRef() == buf
    {
      if |buf| > cap {
        return None;
      }
      var s := new FixedStr(cap);
      s.CopyIn(buf);
      return Some(s);
    }

    /** The `copy_from_slice` into the front of a fresh buffer, shared by `from_slice` and `from_ptr`. */
    method CopyIn(buf: seq<u8>)
      requires Valid() && ind == 0 && |buf| <= cap
      modifies this, bytes
      ensures Valid() && AsRef() == buf
    {
      var i := 0;
      while i < |buf|
        invariant 0 <= i <= |buf| && ind == 0
        invariant bytes[..i] == buf[..i]
        invariant forall k :: i <= k < cap ==> bytes[k] == 0
      {
        bytes[i] := buf[i];
        i := i + 1;
      }
      ind := |buf|;
    }

    /** `clear`: the empty string, with every byte zeroed. */
    method Clear()
      requires Valid()
      modifies this, bytes
      ensures Valid() && ind == 0 && AsRef() == []
      ensures forall k :: 0 <= k < cap ==> bytes[k] == 0
    {
      ind := 0;
      var i := 0;
      while i < cap
        invariant 0 <= i <= cap && ind == 0
        invariant forall k :: 0 <= k < i ==> bytes[k] == 0
      {
        bytes[i] := 0;
        i := i + 1;
      }
    }

    /** `write_str`: appends `s`, or fails without any change when it does not fit. */
    method WriteStr(s: seq<u8>) returns (r: Result<(), FmtError>)
      requires Valid()
      modifies this, bytes
      ensures Valid()
      ensures r.Ok? <==> old(ind) + |s| <= cap
      ensures r.Ok? ==> AsRef() == old(AsRef()) + s
      ensures r.Err? ==> ind == old(ind) && bytes[..] == old(bytes[..])
    {
      if ind + |s| > cap {
        return Err(FmtError);
      }
      ghost var before := AsRef();
      var i := 0;
      while i < |s|
        invariant 0 <= i <= |s| && ind == old(ind)
        invariant bytes[..ind] == before
        invariant bytes[ind..ind + i] == s[..i]
        invariant forall k :: ind + |s| <= k < cap ==> bytes[k] == 0
      {
        bytes[ind + i] := s[i];
        i := i + 1;
      }
      assert bytes[..ind + |s|] == before + s;
      ind := ind + |s|;
      r := Ok(());
    }

    /**
     * `write!`: the formatter hands the pieces to `write_str` one after
     * another and stops at the first failure.
     */
    method WritePieces(pieces: seq<seq<u8>>) returns (r: Result<(), FmtError>)
      requires Valid()
      modifies this, bytes
      ensures Valid()
      ensures (AsRef(), r.Ok?) == Written(old(AsRef()), pieces, cap)
    {
      var i := 0;
      r := Ok(());
      while i < |pieces|
        invariant 0 <= i <= |pieces| && Valid() && r.Ok?
        invariant Written(AsRef(), pieces[i..], cap) == Written(old(AsRef()), pieces, cap)
      {
        assert pieces[i..][0] == pieces[i] && pieces[i..][1..] == pieces[i + 1..];
        ghost var text := AsRef();
        r := WriteStr(pieces[i]);
        if r.Err? {
          assert AsRef() == text;
          return;
        }
        i := i + 1;
      }
      assert pieces[i..] == [];
    }
  }

  /**
   * `FixedCStr<N>`: a `FixedStr<N>` whose text never reaches the last byte,
   * so the byte after the text is always a NUL terminator.
   */
  class FixedCStr {
    const cap: nat
    const inner: FixedStr

    ghost predicate Valid()
      reads this, inner, inner.bytes
    {
      && inner.Valid() && inner.cap == cap
      && (inner.ind < cap || cap == 0)
    }

    /** The text, without its terminator. */
    function Text(): (r: seq<u8>)
      reads this, inner, inner.bytes
      requires Valid()
      ensures cap > 0 ==> |r| < cap
    {
      inner.AsRef()
    }

    /** `as_ref`: the text followed by exactly one NUL (the slice panics when `N == 0`). */
    function AsRef(): (r: seq<u8>)
      reads this, inner, inner.bytes
      requires Valid() && cap > 0
      ensures r == Text() + [0]
    {
      inner.bytes[..inner.ind + 1]
    }

    /** `new`: the empty C string. */
    constructor (cap: nat)
      ensures Valid() && this.cap == cap && fresh(inner) && fresh(inner.bytes)
      ensures Text() == []
    {
      this.cap := cap;
      inner := new FixedStr(cap);
    }

    /**
     * `from_ptr`: `ptr` is `None` for a null pointer, otherwise the bytes at
     * the pointer up to and including the first NUL. Null pointers and
     * strings of `N` or more bytes give `None`.
     */
    static method FromPtr(cap: nat, ptr: Option<seq<u8>>) returns (r: Option<FixedCStr>)
      requires ptr.Some? ==> exists k :: 0 <= k < |ptr.value| && ptr.value[k] == 0
      ensures r.None? <==> ptr.None? || Strlen(ptr.value) >= cap
      ensures r.Some? ==> fresh(r.value) && fresh(r.value.inner) && fresh(r.value.inner.bytes)
                          && r.value.Valid() && r.value.cap == cap
                          && r.value.AsRef() == ptr.value[..Strlen(ptr.value) + 1]
    {
      if ptr.None? {
        return None;
      }
      var strLen := Strlen(ptr.value);
      if strLen >= cap {
        return None;
      }
      var s := new FixedCStr(cap);
      s.inner.CopyIn(ptr.value[..strLen]);
      assert ptr.value[..strLen + 1] == ptr.value[..strLen] + [0];
      return Some(s);
    }

    /** `clear`: the empty string, every byte zeroed. */
    method Clear()
      requires Valid()
      modifies inner, inner.bytes
      ensures Valid() && Text() == []
    {
      inner.Clear();
    }

    /** `write_str`: appends `s` only when a NUL slot remains after it. */
    method WriteStr(s: seq<u8>) returns (r: Result<(), FmtError>)
      requires Valid()
      modifies inner, inner.bytes
      ensures Valid()
      ensures r.Ok? <==> |old(Text())| + |s| + 1 <= cap
      ensures r.Ok? ==> Text() == old(Text()) + s
      ensures r.Err? ==> Text() == old(Text())
    {
      if inner.ind + |s| + 1 > cap {
        return Err(FmtError);
      }
      r := inner.WriteStr(s);
    }

    /** `write!` on a C string: the pieces go through `write_str` until one does not fit. */
    method WritePieces(pieces: seq<seq<u8>>) returns (r: Result<(), FmtError>)
      requires Valid() && cap > 0
      modifies inner, inner.bytes
      ensures Valid()
      ensures (Text(), r.Ok?) == Written(old(Text()), pieces, cap - 1)
    {
      var i := 0;
      r := Ok(());
      while i < |pieces|
        invariant 0 <= i <= |pieces| && Valid() && r.Ok?
        invariant Written(Text(), pieces[i..], cap - 1) == Written(old(Text()), pieces, cap - 1)
      {
        assert pieces[i..][0] == pieces[i] && pieces[i..][1..] == pieces[i + 1..];
        r := WriteStr(pieces[i]);
        if r.Err? {
          return;
        }
        i := i + 1;
      }
      assert pieces[i..] == [];
    }
  }

  /** `strlen`: the index of the first NUL. */
  function Strlen(mem: seq<u8>): (n: nat)
    requires exists k :: 0 <= k < |mem| && mem[k] == 0
    ensures n < |mem| && mem[n] == 0
    ensures forall k :: 0 <= k < n ==> mem[k] != 0
  {
    if mem[0] == 0 then 0
    else
      var k :| 0 <= k < |mem| && mem[k] == 0;
      assert 0 <= k - 1 < |mem[1..]| && mem[1..][k - 1] == 0;
      1 + Strlen(mem[1..])
  }

  /**
   * The text and the success flag after writing `pieces` one by one into a
   * buffer of capacity `cap` that already holds `text`.
   */
  function Written(text: seq<u8>, pieces: seq<seq<u8>>, cap: nat): (r: (seq<u8>, bool))
    ensures |text| <= |r.0| && r.0[..|text|] == text
    ensures |text| <= cap ==> |r.0| <= cap
    decreases |pieces|
  {
    if pieces == [] then (text, true)
    else if |text| + |pieces[0]| > cap then (text, false)
    else Written(text + pieces[0], pieces[1..], cap)
  }

  /** All pieces joined. */
  function Concat(pieces: seq<seq<u8>>): seq<u8>
    decreases |pieces|
  {
    if pieces == [] then [] else pieces[0] + Concat(pieces[1..])
  }

  /**
   * Writing pieces succeeds exactly when all of them fit, and then the text
   * is extended by all of them; a failure keeps a prefix of that text that
   * still starts with what was there, so earlier pieces survive.
   */
  lemma {:induction false} WrittenSpec(text: seq<u8>, pieces: seq<seq<u8>>, cap: nat)
    requires |text| <= cap
    decreases |pieces|
    ensures Written(text, pieces, cap).1 <==> |text| + |Concat(pieces)| <= cap
    ensures Written(text, pieces, cap).1 ==> Written(text, pieces, cap).0 == text + Concat(pieces)
    ensures |Written(text, pieces, cap).0| <= |text + Concat(pieces)|
    ensures Written(text, pieces, cap).0 == (text + Concat(pieces))[..|Written(text, pieces, cap).0|]
    ensures |Written(text, pieces, cap).0| >= |text| && Written(text, pieces, cap).0[..|text|] == text
  {
    if pieces != [] {
      var t := text + pieces[0];
      assert text + Concat(pieces) == t + Concat(pieces[1..]);
      if |t| <= cap {
        WrittenSpec(t, pieces[1..], cap);
        var w := Written(t, pieces[1..], cap).0;
        assert w[..|t|] == t;
        assert w[..|text|] == t[..|text|];
      } else {
        ConcatLength(pieces);
      }
    }
  }

  lemma {:induction false} ConcatLength(pieces: seq<seq<u8>>)
    requires pieces != []
    ensures |Concat(pieces)| >= |pieces[0]|
  {
  }

  /** `/proc/` */
  const PROC: seq<u8> := [0x2F, 0x70, 0x72, 0x6F, 0x63, 0x2F]
  /** `35234` */
  const PID: seq<u8> := [0x33, 0x35, 0x32, 0x33, 0x34]
  /** `/task` */
  const TASK: seq<u8> := [0x2F, 0x74, 0x61, 0x73, 0x6B]

  /** All three pieces of `write!("/proc/{}/task", 35234)` fit in 32 bytes, in a `FixedStr` and in a `FixedCStr`. */
  lemma ProcTaskFits()
    ensures Written([], [PROC, PID, TASK], 32) == (PROC + PID + TASK, true)
    ensures Written([], [PROC, PID, TASK], 32 - 1) == (PROC + PID + TASK, true)
  {
    var pieces := [PROC, PID, TASK];
    assert pieces[1..] == [PID, TASK] && [PID, TASK][1..] == [TASK] && [TASK][1..] == [];
    assert [] + PROC == PROC;
    forall cap | cap == 32 || cap == 31
      ensures Written([], pieces, cap) == (PROC + PID + TASK, true)
    {
      assert Written([], pieces, cap) == Written(PROC, [PID, TASK], cap);
      assert Written(PROC, [PID, TASK], cap) == Written(PROC + PID, [TASK], cap);
      assert Written(PROC + PID, [TASK], cap) == Written(PROC + PID + TASK, [], cap);
    }
  }

  /**
   * The last piece overflows a `FixedStr<15>` and a `FixedCStr<16>`: the
   * write fails and the text stays `/proc/35234`.
   */
  lemma ProcTaskTooLong()
    ensures Written([], [PROC, PID, TASK], 15) == (PROC + PID, false)
    ensures Written([], [PROC, PID, TASK], 16 - 1) == (PROC + PID, false)
  {
    var pieces := [PROC, PID, TASK];
    assert pieces[1..] == [PID, TASK] && [PID, TASK][1..] == [TASK];
    assert [] + PROC == PROC;
    assert Written([], pieces, 15) == Written(PROC, [PID, TASK], 15);
    assert Written(PROC, [PID, TASK], 15) == Written(PROC + PID, [TASK], 15);
  }
}
