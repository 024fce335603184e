/**
 * Little-endian integers over byte sequences: the layout of every integer
 * the crash path reads out of raw memory (auxiliary-vector entries, ELF
 * headers and notes) and of `usize::to_ne_bytes` on the 64-bit
 * little-endian target.
 */
module LittleEndian {
  import opened Wrappers

  /** `size_of::<usize>()` on the 64-bit target. */
  const WORD_SIZE: nat := 8

  /** `256^n`. */
  function Pow256(n: nat): (p: nat)
    ensures p >= 1
  {
    if n == 0 then 1 else 256 * Pow256(n - 1)
  }

  /** The unsigned value of the `n` bytes of `s` starting at `at`, lowest byte first. */
  function LeAt(s: seq<u8>, at: nat, n: nat): (v: nat)
    requires at + n <= |s|
    decreases n
  {
    if n == 0 then 0 else s[at] as nat + 256 * LeAt(s, at + 1, n - 1)
  }

  /** Byte `j` (counting from the lowest) of the value `v`. */
  function ByteOf(v: nat, j: nat): (b: u8)
    decreases j
  {
    if j == 0 then (v % 256) as u8 else ByteOf(v / 256, j - 1)
  }

  /** Every byte of zero is zero. */
  lemma {:induction false} ByteOfZero(j: nat)
    ensures ByteOf(0, j) == 0
  {
    if j > 0 {
      ByteOfZero(j - 1);
    }
  }

  /** `to_ne_bytes`/`to_le_bytes`: the `n` lowest bytes of `v`, lowest first. */
  function LeBytes(v: nat, n: nat): (r: seq<u8>)
    ensures |r| == n
  {
    seq(n, (j: nat) => ByteOf(v, j))
  }

  /** An `n`-byte little-endian value is below `256^n`. */
  lemma {:induction false} LeAtBound(s: seq<u8>, at: nat, n: nat)
    requires at + n <= |s|
    ensures LeAt(s, at, n) < Pow256(n)
    decreases n
  {
    if n > 0 {
      LeAtBound(s, at + 1, n - 1);
    }
  }

  /** Reading an `n`-byte value back byte by byte gives the bytes it was read from. */
  lemma {:induction false} ByteOfLeAt(s: seq<u8>, at: nat, n: nat, j: nat)
    requires at + n <= |s| && j < n
    ensures ByteOf(LeAt(s, at, n), j) == s[at + j]
    decreases j
  {
    var rest := LeAt(s, at + 1, n - 1);
    assert LeAt(s, at, n) == s[at] as nat + 256 * rest;
    if j > 0 {
      assert LeAt(s, at, n) / 256 == rest;
      ByteOfLeAt(s, at + 1, n - 1, j - 1);
    }
  }

  /** `to_le_bytes` of a value read from `n` bytes reproduces those bytes. */
  lemma LeBytesOfLeAt(s: seq<u8>, at: nat, n: nat)
    requires at + n <= |s|
    ensures LeBytes(LeAt(s, at, n), n) == s[at..at + n]
  {
    forall j | 0 <= j < n
      ensures LeBytes(LeAt(s, at, n), n)[j] == s[at..at + n][j]
    {
      ByteOfLeAt(s, at, n, j);
    }
  }

  /** `LeAt` only looks at the bytes it reads. */
  lemma {:induction false} LeAtFrame(s: seq<u8>, sa: nat, t: seq<u8>, ta: nat, n: nat)
    requires sa + n <= |s| && ta + n <= |t|
    requires forall k :: sa <= k < sa + n ==> s[k] == t[k - sa + ta]
    ensures LeAt(s, sa, n) == LeAt(t, ta, n)
    decreases n
  {
    if n > 0 {
      LeAtFrame(s, sa + 1, t, ta + 1, n - 1);
    }
  }
}
