/**
 * `LineReader<R, N>`: splits what a reader produces into lines without
 * allocating, through a fixed buffer of `N` bytes with a read cursor, a
 * filled end and an end-of-file flag.
 */
module LineReader {
  import opened Wrappers
  import FixedStr

  /** `b'\n'` */
  const NL: u8 := 0x0A

  /** The error a reader can report. */
  datatype IoError = IoError

  /**
   * The inner reader, seen from `read`: it hands out the next bytes of
   * `data`, at most `chunk` of them per call (at least one when any are
   * left and there is room), or fails on every call when `broken`.
   */
  class Reader {
    var data: seq<u8>
    const chunk: nat
    const broken: bool

    constructor (data: seq<u8>, chunk: nat, broken: bool)
      requires chunk >= 1
      ensures this.data == data && this.chunk == chunk && this.broken == broken
    {
      this.data := data;
      this.chunk := chunk;
      this.broken := broken;
    }

    /** `read(&mut dst[from..])`: the number of bytes written, `0` meaning end of input. */
    method Read(dst: array<u8>, from: nat) returns (r: Result<nat, IoError>)
      requires from <= dst.Length
      modifies this, dst
      ensures broken ==> r.Err? && data == old(data) && dst[..] == old(dst[..])
      ensures !broken ==> r.Ok? && r.value == Min(Min(dst.Length - from, chunk), |old(data)|)
      ensures r.Ok? ==> && data == old(data)[r.value..]
                        && dst[..from] == old(dst[..from])
                        && dst[from..from + r.value] == old(data)[..r.value]
    {
      if broken {
        return Err(IoError);
      }
      var n := Min(Min(dst.Length - from, chunk), |data|);
      var i := 0;
      while i < n
        invariant 0 <= i <= n && data == old(data)
        invariant dst[..from] == old(dst[..from])
        invariant dst[from..from + i] == data[..i]
      {
        dst[from + i] := data[i];
        i := i + 1;
      }
      data := data[n..];
      r := Ok(n);
    }
  }

  function Min(a: int, b: int): (m: int)
    ensures m <= a && m <= b && (m == a || m == b)
  {
    if a <= b then a else b
  }

  /** Index of the first newline in `s`, if there is one. */
  function FirstNewline(s: seq<u8>): (r: Option<nat>)
    ensures r.Some? ==> r.value < |s| && s[r.value] == NL
    ensures r.Some? ==> forall k :: 0 <= k < r.value ==> s[k] != NL
    ensures r.None? ==> forall k :: 0 <= k < |s| ==> s[k] != NL
  {
    if s == [] then None
    else if s[0] == NL then Some(0)
    else
      match FirstNewline(s[1..])
      case None => None
      case Some(j) => Some(j + 1)
  }

  /** What one call of `next` makes of the unread bytes. */
  datatype Step =
    | Line(line: seq<u8>, rest: seq<u8>)  // a line, and the bytes left after it
    | TooLong                             // no newline within the first `N` bytes
    | End                                 // nothing left

  /**
   * The line `next` returns from the unread bytes `p` through a buffer of
   * `cap` bytes: the bytes before the first newline when that newline fits in
   * the buffer, otherwise a final unterminated line that leaves a byte free,
   * otherwise nothing.
   */
  function NextLine(p: seq<u8>, cap: nat): (r: Step)
    ensures r.Line? ==> p == r.line + [NL] + r.rest || (p == r.line && r.rest == [])
    ensures r.End? <==> cap == 0 || p == []
  {
    if cap == 0 then End
    else
      match FirstNewline(p)
      case Some(j) => if j < cap then Line(p[..j], p[j + 1..]) else TooLong
      case None => if p == [] then End else if |p| < cap then Line(p, []) else TooLong
  }

  /** A returned line never holds a newline and is shorter than the buffer. */
  lemma NextLineShape(p: seq<u8>, cap: nat)
    ensures NextLine(p, cap).Line? ==>
              && |NextLine(p, cap).line| < cap
              && (forall k :: 0 <= k < |NextLine(p, cap).line| ==> NextLine(p, cap).line[k] != NL)
              && |NextLine(p, cap).rest| < |p|
  {
  }

  /** A line and the newline after it are given back exactly when the line is shorter than the buffer. */
  lemma NextLineOfTerminated(line: seq<u8>, rest: seq<u8>, cap: nat)
    requires cap > 0 && forall k :: 0 <= k < |line| ==> line[k] != NL
    ensures NextLine(line + [NL] + rest, cap) == if |line| < cap then Line(line, rest) else TooLong
  {
    var p := line + [NL] + rest;
    FirstNewlineAfter(line, rest);
    assert p[..|line|] == line && p[|line| + 1..] == rest;
  }

  lemma {:induction false} FirstNewlineAfter(line: seq<u8>, rest: seq<u8>)
    requires forall k :: 0 <= k < |line| ==> line[k] != NL
    ensures FirstNewline(line + [NL] + rest) == Some(|line|)
  {
    if line != [] {
      assert (line + [NL] + rest)[1..] == line[1..] + [NL] + rest;
      FirstNewlineAfter(line[1..], rest);
    }
  }

  /** `LineReader<R, N>` with `cap` for `N`. */
  class LineReader {
    const cap: nat
    const buf: array<u8>
    const inner: Reader
    var cursor: nat
    var filled: nat
    var eof: bool

    /** The bounds `next` keeps at every step. */
    ghost predicate Inv()
      reads this, inner
    {
      && buf.Length == cap
      && cursor <= filled <= cap
      && inner.chunk >= 1
    }

    /** Between calls, end of file also means nothing is left. */
    ghost predicate Valid()
      reads this, inner
    {
      && Inv()
      && (eof && cap > 0 ==> cursor == filled && inner.data == [])
    }

    /** The bytes not yet handed out: the unread part of the buffer, then the reader's. */
    function Pending(): seq<u8>
      reads this, buf, inner
      requires Inv()
    {
      buf[cursor..filled] + inner.data
    }

    /** `new`: an empty buffer in front of `reader`. */
    constructor (cap: nat, reader: Reader)
      requires reader.chunk >= 1
      ensures Valid() && this.cap == cap && inner == reader && !eof && fresh(buf)
      ensures Pending() == reader.data
    {
      this.cap := cap;
      buf := new u8[cap](_ => 0);
      inner := reader;
      cursor := 0;
      filled := 0;
      eof := false;
    }

    /**
     * `next`: the line of `NextBytes` as a `FixedStr<N>`, built by
     * `from_slice`, which cannot fail here because a line is shorter than
     * the buffer.
     */
    method Next() returns (r: Option<FixedStr.FixedStr>)
      requires Valid()
      modifies this, buf, inner
      ensures Valid()
      ensures old(eof) ==> r.None? && eof && Pending() == old(Pending())
      ensures !old(eof) && !inner.broken ==>
                match NextLine(old(Pending()), cap)
                case Line(line, rest) => r.Some? && fresh(r.value) && r.value.Valid()
                                         && r.value.AsRef() == line && Pending() == rest
                case TooLong => r.None? && Pending() == old(Pending()) && !eof
                case End => r.None? && eof
    {
      ghost var p := Pending();
      var bytes := NextBytes();
      if bytes.None? {
        return None;
      }
      NextLineShape(p, cap);
      r := FixedStr.FixedStr.FromSlice(cap, bytes.value);
    }

    /**
     * The bytes of the line `next` returns: after end of file always `None`; otherwise the line that
     * `NextLine` picks from the pending bytes, which are consumed up to and
     * including its newline. Over-long lines give `None` and consume
     * nothing; a failing reader gives `None` and consumes nothing.
     */
    method NextBytes() returns (r: Option<seq<u8>>)
      requires Valid()
      modifies this, buf, inner
      ensures Valid()
      ensures old(eof) ==> r.None? && eof && Pending() == old(Pending())
      ensures !old(eof) && !inner.broken ==>
                match NextLine(old(Pending()), cap)
                case Line(line, rest) => r == Some(line) && Pending() == rest
                case TooLong => r.None? && Pending() == old(Pending()) && !eof
                case End => r.None? && eof
      ensures !old(eof) && inner.broken ==>
                (r.None? && Pending() == old(Pending()))
                || (NextLine(old(Pending()), cap).Line? && r == Some(NextLine(old(Pending()), cap).line)
                    && Pending() == NextLine(old(Pending()), cap).rest)
    {
      if eof {
        return None;
      }
      ghost var p := Pending();
      while true
        invariant Inv() && p == Pending() && buf[cursor..filled] + inner.data == p
        invariant inner.broken ==> !eof
        invariant eof && cap > 0 ==> cursor == 0 && filled < cap && inner.data == [] && FirstNewline(buf[cursor..filled]) == None
        invariant cap == 0 ==> filled == 0
        decreases |inner.data| + (if eof then 0 else 1)
      {
        if eof {
          r := TakeTail();
          return;
        }
        var nl := ScanNewline(buf, cursor, filled);
        if nl.Some? {
          r := TakeLine(nl.value);
          return;
        }
        if cursor < filled && cursor == 0 && filled == cap {
          FirstNewlineAppend(buf[cursor..filled], inner.data);
          return None;
        }
        var ok := Refill();
        if !ok {
          return None;
        }
      }
    }

    /** The end-of-file branch of `next`: the unterminated last line, if any. */
    method TakeTail() returns (r: Option<seq<u8>>)
      requires Inv() && eof
      requires cap > 0 ==> cursor == 0 && filled < cap && inner.data == [] && FirstNewline(buf[cursor..filled]) == None
      requires cap == 0 ==> filled == 0
      modifies this
      ensures Valid() && eof
      ensures match NextLine(old(Pending()), cap)
              case Line(line, rest) => r == Some(line) && Pending() == rest
              case TooLong => false
              case End => r.None?
    {
      if cursor < filled {
        var line := buf[cursor..filled];
        cursor := filled;
        assert old(Pending()) == line;
        return Some(line);
      } else {
        return None;
      }
    }

    /** The newline branch of `next`: the line before the newline at `i`, which is consumed. */
    method TakeLine(i: nat) returns (r: Option<seq<u8>>)
      requires Inv() && !eof && cursor <= i < filled
      requires FirstNewline(buf[cursor..filled]) == Some(i - cursor)
      modifies this
      ensures Valid() && !eof
      ensures NextLine(old(Pending()), cap).Line?
      ensures r == Some(NextLine(old(Pending()), cap).line) && Pending() == NextLine(old(Pending()), cap).rest
    {
      ghost var p := Pending();
      var line := buf[cursor..i];
      FirstNewlineAppend(buf[cursor..filled], inner.data);
      assert p[..i - cursor] == line;
      assert p[i - cursor + 1..] == buf[i + 1..filled] + inner.data;
      cursor := i + 1;
      return Some(line);
    }

    /**
     * The second half of `next`'s loop, reached when the unread bytes hold no
     * newline and do not fill the whole buffer: move them to the front (or
     * empty the buffer), then read behind them. `false` is a read error.
     */
    method Refill() returns (ok: bool)
      requires Inv() && !eof && FirstNewline(buf[cursor..filled]) == None
      requires !(cursor < filled && cursor == 0 && filled == cap)
      modifies this, buf, inner
      ensures Inv() && Pending() == old(Pending()) && cursor == 0
      ensures inner.broken ==> !ok && !eof
      ensures !inner.broken ==> ok
      ensures eof && cap > 0 ==> filled < cap && inner.data == [] && FirstNewline(buf[..filled]) == None
      ensures ok && !eof ==> |inner.data| < old(|inner.data|)
      ensures cap == 0 ==> filled == 0
    {
      if cursor < filled {
        Compact();
      } else {
        filled := 0;
        cursor := 0;
      }
      ok := ReadMore();
    }

    /** The `read` behind the unread bytes, which now start the buffer. */
    method ReadMore() returns (ok: bool)
      requires Inv() && !eof && cursor == 0 && (filled < cap || cap == 0)
      requires FirstNewline(buf[..filled]) == None
      modifies this, buf, inner
      ensures Inv() && Pending() == old(Pending()) && cursor == 0
      ensures inner.broken ==> !ok && !eof
      ensures !inner.broken ==> ok
      ensures eof && cap > 0 ==> filled < cap && inner.data == [] && FirstNewline(buf[..filled]) == None
      ensures ok && !eof ==> |inner.data| < old(|inner.data|)
      ensures cap == 0 ==> filled == 0
    {
      var f := filled;
      ghost var kept := buf[..f];
      ghost var before := inner.data;
      var got := inner.Read(buf, f);
      if got.Err? {
        return false;
      }
      var read := got.value;
      if read == 0 {
        eof := true;
        return true;
      }
      assert buf[..f + read] == kept + before[..read];
      assert before == before[..read] + inner.data;
      filled := f + read;
      return true;
    }

    /** The `copy_nonoverlapping` of the unread bytes to the front of the buffer. */
    method Compact()
      requires Inv() && cursor < filled && !eof
      modifies this, buf
      ensures Inv() && cursor == 0 && filled == old(filled - cursor) && !eof
      ensures buf[..filled] == old(buf[cursor..filled])
      ensures Pending() == old(Pending())
    {
      var c, f := cursor, filled;
      var remaining := f - c;
      var i := 0;
      while i < remaining
        invariant 0 <= i <= remaining
        invariant forall k :: 0 <= k < i ==> buf[k] == old(buf[c + k])
        invariant forall k :: c + i <= k < f ==> buf[k] == old(buf[k])
        modifies buf
      {
        buf[i] := buf[c + i];
        i := i + 1;
      }
      assert buf[..remaining] == old(buf[c..f]);
      cursor := 0;
      filled := remaining;
    }
  }

  /** The `for` loop of `next`: the first newline in `buf[from..to]`. */
  method ScanNewline(buf: array<u8>, from: nat, to: nat) returns (r: Option<nat>)
    requires from <= to <= buf.Length
    ensures r.Some? ==> from <= r.value < to && FirstNewline(buf[from..to]) == Some(r.value - from)
    ensures r.None? ==> FirstNewline(buf[from..to]) == None
  {
    var i := from;
    while i < to
      invariant from <= i <= to
      invariant forall k :: from <= k < i ==> buf[k] != NL
    {
      if buf[i] == NL {
        FirstNewlineAt(buf[from..to], i - from);
        return Some(i);
      }
      i := i + 1;
    }
    FirstNewlineNone(buf[from..to]);
    return None;
  }

  lemma {:induction false} FirstNewlineAt(s: seq<u8>, j: nat)
    requires j < |s| && s[j] == NL && forall k :: 0 <= k < j ==> s[k] != NL
    ensures FirstNewline(s) == Some(j)
  {
    if j > 0 {
      FirstNewlineAt(s[1..], j - 1);
    }
  }

  lemma {:induction false} FirstNewlineNone(s: seq<u8>)
    requires forall k :: 0 <= k < |s| ==> s[k] != NL
    ensures FirstNewline(s) == None
  {
    if s != [] {
      FirstNewlineNone(s[1..]);
    }
  }

  /** A newline found in a prefix is the first newline of the whole. */
  lemma {:induction false} FirstNewlineAppend(a: seq<u8>, b: seq<u8>)
    ensures FirstNewline(a).Some? ==> FirstNewline(a + b) == FirstNewline(a)
    ensures FirstNewline(a).None? ==> FirstNewline(a + b).None? || FirstNewline(a + b).value >= |a|
  {
    if a != [] {
      assert (a + b)[1..] == a[1..] + b;
      FirstNewlineAppend(a[1..], b);
    }
  }

  /** `n` copies of the byte `b`. */
  function Fill(b: u8, n: nat): (r: seq<u8>)
    ensures |r| == n && forall k :: 0 <= k < n ==> r[k] == b
  {
    seq(n, _ => b)
  }

  /** Five 200-byte lines of `a` ended by newlines, then 19 more `a`s: the `large_lines_eof` input, built from the back. */
  function LargeLines(lines: nat): seq<u8> {
    if lines == 0 then Fill(0x61, 19) else Fill(0x61, 200) + [NL] + LargeLines(lines - 1)
  }

  /** The input is the 1024 `a`s with a newline at 200, 401, 602, 803 and 1004. */
  lemma {:induction false} LargeLinesBytes(lines: nat)
    ensures |LargeLines(lines)| == 201 * lines + 19
    ensures forall k :: 0 <= k < |LargeLines(lines)| ==>
              LargeLines(lines)[k] == if k < 201 * lines && k % 201 == 200 then NL else 0x61
  {
    if lines > 0 {
      LargeLinesBytes(lines - 1);
      var s := LargeLines(lines);
      forall k | 0 <= k < |s|
        ensures s[k] == if k < 201 * lines && k % 201 == 200 then NL else 0x61
      {
        if k >= 201 {
          assert s[k] == LargeLines(lines - 1)[k - 201];
          assert k % 201 == (k - 201) % 201;
        }
      }
    }
  }

  /** Each of the five lines comes back whole across refills, then the 19-byte tail, then nothing. */
  lemma LargeLinesSplit(lines: nat)
    ensures lines > 0 ==> NextLine(LargeLines(lines), 512) == Line(Fill(0x61, 200), LargeLines(lines - 1))
    ensures lines == 0 ==> NextLine(LargeLines(lines), 512) == Line(Fill(0x61, 19), [])
    ensures NextLine([], 512) == End
  {
    if lines > 0 {
      NextLineOfTerminated(Fill(0x61, 200), LargeLines(lines - 1), 512);
    } else {
      FirstNewlineNone(Fill(0x61, 19));
    }
  }

  /**
   * A line of 511 bytes with its newline, or 511 bytes at end of file, fits
   * a 512-byte buffer; 513 bytes without a newline do not; empty input has
   * no line.
   */
  lemma BufferLimits()
    ensures NextLine(Fill(0x31, 511) + [NL], 512) == Line(Fill(0x31, 511), [])
    ensures NextLine(Fill(0x31, 511), 512) == Line(Fill(0x31, 511), [])
    ensures NextLine(Fill(0x66, 513), 512) == TooLong
    ensures NextLine([], 512) == End
  {
    NextLineOfTerminated(Fill(0x31, 511), [], 512);
    assert Fill(0x31, 511) + [NL] + [] == Fill(0x31, 511) + [NL];
    FirstNewlineNone(Fill(0x31, 511));
    FirstNewlineNone(Fill(0x66, 513));
  }
}
