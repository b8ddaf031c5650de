/** Byte-level vocabulary shared by the record layout, the card model and the
    transport: fixed-width integers, zero fills, C-string truncation and
    clipped windows into a byte string (the Arduino `String` is a byte string). */
module Bytes {

  /** An unsigned 8-bit value (`uint8_t` / `byte`). */
  newtype byte = b: int | 0 <= b < 256

  /** An unsigned 32-bit value (`uint32_t`). */
  type uint32 = x: int | 0 <= x < 0x1_0000_0000

  function Min(a: int, b: int): int { if a <= b then a else b }

  /** `n` zero bytes, as left by `memset(buf, 0, n)`. */
  function Zeros(n: nat): (z: seq<byte>)
    ensures |z| == n
  {
    seq(n, _ => 0)
  }

  /** `s` followed by zeros up to length `n` (a zero-filled buffer into
      which `s` was copied). */
  function PadTo(s: seq<byte>, n: nat): (r: seq<byte>)
    requires |s| <= n
    ensures |r| == n && r[..|s|] == s
  {
    s + Zeros(n - |s|)
  }

  /** A buffer that holds `u` zero-padded to `m` bytes and zeros after
      that holds `u` zero-padded to any length `n` it has room for. */
  lemma PaddedPrefix(buf: seq<byte>, u: seq<byte>, m: nat, n: nat)
    requires |u| <= m <= |buf| && |u| <= n <= |buf|
    requires buf[..m] == PadTo(u, m)
    requires forall i :: m <= i < |buf| ==> buf[i] == 0
    ensures buf[..n] == PadTo(u, n)
  {
    var p, q := PadTo(u, m), PadTo(u, n);
    forall i | 0 <= i < n
      ensures buf[i] == q[i]
    {
      if i < |u| {
        assert p[i] == u[i] && q[i] == u[i];
      } else if i < m {
        assert buf[i] == p[i];
      }
    }
  }

  /** Cutting a zero-padded buffer short keeps it zero-padded. */
  lemma PadToPrefix(s: seq<byte>, m: nat, n: nat)
    requires |s| <= n <= m
    ensures PadTo(s, m)[..n] == PadTo(s, n)
  {
    var p, q := PadTo(s, m), PadTo(s, n);
    forall i | 0 <= i < n
      ensures p[i] == q[i]
    {
      if i < |s| {
        assert p[i] == p[..|s|][i] && q[i] == q[..|s|][i];
      }
    }
  }

  /** A buffer of `n` bytes or more into which at most `m <= n` bytes were
      copied is zero from byte `m` on. */
  lemma PaddedTail(s: seq<byte>, m: nat)
    requires |s| <= m
    ensures forall n :: m <= n ==> PadTo(s, n)[m..] == Zeros(n - m)
  {
    forall n | m <= n
      ensures PadTo(s, n)[m..] == Zeros(n - m)
    {
      var p := PadTo(s, n);
      assert forall i :: m <= i < n ==> p[i] == 0;
    }
  }

  predicate NoNul(s: seq<byte>)
  {
    forall i :: 0 <= i < |s| ==> s[i] != 0
  }

  /** What a C string routine (`strncat`, `strncpy`, `String(char*)`)
      takes from `s`: the bytes before the first NUL. */
  function UntilNul(s: seq<byte>): (r: seq<byte>)
    ensures r <= s && NoNul(r)
    ensures |r| < |s| ==> s[|r|] == 0
  {
    if s == [] || s[0] == 0 then [] else [s[0]] + UntilNul(s[1..])
  }

  lemma {:induction false} UntilNulOfNoNul(s: seq<byte>)
    requires NoNul(s)
    ensures UntilNul(s) == s
  {
    if s != [] {
      assert s[1..] == s[1..];
      assert NoNul(s[1..]) by {
        forall i | 0 <= i < |s[1..]| ensures s[1..][i] != 0 {
          assert s[1..][i] == s[i + 1];
        }
      }
      UntilNulOfNoNul(s[1..]);
    }
  }

  lemma UntilNulIdempotent(s: seq<byte>)
    ensures UntilNul(UntilNul(s)) == UntilNul(s)
  {
    UntilNulOfNoNul(UntilNul(s));
  }

  lemma UntilNulOfPadded(s: seq<byte>, n: nat)
    requires NoNul(s) && |s| <= n
    ensures UntilNul(PadTo(s, n)) == s
  {
    var p := PadTo(s, n);
    assert forall i :: 0 <= i < |s| ==> p[i] == s[i];
    assert |s| < n ==> p[|s|] == 0;
  }

  /** A C string routine reading `chunk` bytes of a buffer that holds a
      block of the NUL-free `s`, zero-padded to `size` bytes, gets that
      block clipped to `chunk` bytes, provided the chunk is the whole block
      or the block is the whole of `s`. */
  lemma PaddedChunk(s: seq<byte>, from: nat, size: nat, chunk: nat, buf: seq<byte>)
    requires NoNul(s) && chunk == Min(|s|, size) && (chunk < size ==> from == 0)
    requires size <= |buf| && buf[..size] == PadTo(Window(s, from, size), size)
    ensures UntilNul(buf[..chunk]) == Window(s, from, chunk)
  {
    var w := Window(s, from, size);
    assert NoNul(w);
    if chunk == size {
      assert buf[..chunk] == PadTo(w, size);
      UntilNulOfPadded(w, size);
    } else {
      assert w == s;
      PadToPrefix(s, size, chunk);
      assert buf[..chunk] == buf[..size][..chunk];
      UntilNulOfNoNul(s);
    }
  }

  /** The bytes of `s` at positions `from` .. `from + count - 1`, clipped
      to the end of `s`. */
  function Window(s: seq<byte>, from: nat, count: nat): (w: seq<byte>)
    ensures |w| == if from >= |s| then 0 else Min(count, |s| - from)
    ensures forall i :: 0 <= i < |w| ==> w[i] == s[from + i]
  {
    if from >= |s| then [] else s[from .. Min(from + count, |s|)]
  }

  /** A prefix of `s` followed by the window that starts where it ends is
      a longer prefix of `s`. */
  lemma WindowExtends(s: seq<byte>, from: nat, count: nat, pre: seq<byte>, w: seq<byte>)
    requires from < |s| && pre == s[..from] && w == Window(s, from, count)
    ensures pre + w == s[..Min(|s|, from + count)]
  {
  }

  /** Little-endian bytes of a 32-bit value (the in-memory layout of
      `uint32_t` on the target). */
  function Uint32Bytes(x: uint32): (r: seq<byte>)
    ensures |r| == 4
  {
    [(x % 256) as byte, (x / 256 % 256) as byte, (x / 65536 % 256) as byte, (x / 16777216) as byte]
  }

  function Uint32FromBytes(s: seq<byte>): uint32
    requires |s| == 4
  {
    s[0] as int + 256 * s[1] as int + 65536 * s[2] as int + 16777216 * s[3] as int
  }

  lemma Uint32RoundTrip(x: uint32)
    ensures Uint32FromBytes(Uint32Bytes(x)) == x
  {
    var b0, q0 := x % 256, x / 256;
    var b1, q1 := q0 % 256, q0 / 256;
    var b2, b3 := q1 % 256, q1 / 256;
    assert x == b0 + 256 * q0;
    assert q0 == b1 + 256 * q1;
    assert q1 == b2 + 256 * b3;
    assert x / 65536 == q1;
    assert x / 16777216 == b3;
  }

  lemma Uint32BytesOf(s: seq<byte>)
    requires |s| == 4
    ensures Uint32Bytes(Uint32FromBytes(s)) == s
  {
    var x := Uint32FromBytes(s);
    var q1 := s[2] as int + 256 * s[3] as int;
    var q0 := s[1] as int + 256 * q1;
    DigitSplit(x, s[0] as int, q0);
    DigitSplit(q0, s[1] as int, q1);
    DigitSplit(q1, s[2] as int, s[3] as int);
    assert x / 65536 == q1 && x / 16777216 == s[3] as int;
  }

  /** The low byte and the rest of `x = lo + 256 * hi`. */
  lemma DigitSplit(x: int, lo: int, hi: int)
    requires 0 <= lo < 256 && x == lo + 256 * hi
    ensures x % 256 == lo && x / 256 == hi
  {
  }
}
