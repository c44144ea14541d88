/** Fixed-width little-endian encodings, as Python's `struct` module writes
    them with a `<` format: `I` (u32), `i` (i32), `f` (f32) and `B` (u8).
    A 32-bit float is carried as its opaque bit pattern: the protocol only
    copies floats, it never computes with them. */
module Bytes {

  type byte = x: int | 0 <= x < 0x100
  type u32 = x: int | 0 <= x < 0x1_0000_0000
  type i32 = x: int | -0x8000_0000 <= x < 0x8000_0000

  /** The IEEE-754 bit pattern of a single-precision float, left uninterpreted. */
  type f32 = u32

  const WORD := 4

  /** `struct.pack("<I", x)` */
  function LeU32(x: u32): (b: seq<byte>)
    ensures |b| == WORD
  {
    var q1 := x / 0x100;
    var q2 := q1 / 0x100;
    [x % 0x100, q1 % 0x100, q2 % 0x100, q2 / 0x100]
  }

  /** `struct.unpack("<I", b)[0]` */
  function DecodeU32(b: seq<byte>): (x: u32)
    requires |b| == WORD
  {
    b[0] as int + 0x100 * (b[1] as int + 0x100 * (b[2] as int + 0x100 * b[3] as int))
  }

  lemma DivModBy256(a: int, q: int, r: int)
    requires 0 <= r < 0x100 && a == 0x100 * q + r
    ensures a / 0x100 == q && a % 0x100 == r
  {
  }

  /** Decoding what was encoded gives the word back. */
  lemma DecodeLeU32(x: u32)
    ensures DecodeU32(LeU32(x)) == x
  {
    var q1 := x / 0x100;
    var q2 := q1 / 0x100;
    assert x == 0x100 * q1 + x % 0x100;
    assert q1 == 0x100 * q2 + q1 % 0x100;
    assert q2 == 0x100 * (q2 / 0x100) + q2 % 0x100;
  }

  /** Encoding what was decoded gives the four bytes back. */
  lemma LeU32Decode(b: seq<byte>)
    requires |b| == WORD
    ensures LeU32(DecodeU32(b)) == b
  {
    var x := DecodeU32(b);
    var q2: int := b[2] as int + 0x100 * b[3] as int;
    var q1: int := b[1] as int + 0x100 * q2;
    DivModBy256(x, q1, b[0]);
    DivModBy256(q1, q2, b[1]);
    DivModBy256(q2, b[3], b[2]);
  }

  /** The encoding is injective: two words with the same bytes are equal. */
  lemma LeU32Injective(x: u32, y: u32)
    requires LeU32(x) == LeU32(y)
    ensures x == y
  {
    DecodeLeU32(x);
    DecodeLeU32(y);
  }

  /** `struct.pack("<i", x)`: two's complement, so the bits of `x mod 2^32`. */
  function I32Bits(x: i32): (w: u32)
    ensures w % 0x1_0000_0000 == x % 0x1_0000_0000
    ensures x >= 0 <==> w < 0x8000_0000
  {
    if x >= 0 then x else x + 0x1_0000_0000
  }

  /** `struct.unpack("<i", ...)` on the word's bytes. */
  function I32OfBits(w: u32): (x: i32)
    ensures I32Bits(x) == w
  {
    if w < 0x8000_0000 then w else w - 0x1_0000_0000
  }

  lemma I32RoundTrip(x: i32)
    ensures I32OfBits(I32Bits(x)) == x
  {
  }

  /** Several words packed back to back, as `struct.pack("<" + "I" * n, ...)`. */
  function EncodeWords(ws: seq<u32>): (b: seq<byte>)
    ensures |b| == WORD * |ws|
  {
    if ws == [] then [] else LeU32(ws[0]) + EncodeWords(ws[1..])
  }

  /** The inverse of `EncodeWords`, for a byte string whose length is a multiple of four. */
  function DecodeWords(b: seq<byte>): (ws: seq<u32>)
    requires |b| % WORD == 0
    ensures WORD * |ws| == |b|
  {
    if b == [] then [] else [DecodeU32(b[..WORD])] + DecodeWords(b[WORD..])
  }

  lemma {:induction false} DecodeEncodeWords(ws: seq<u32>)
    ensures DecodeWords(EncodeWords(ws)) == ws
  {
    if ws != [] {
      var b := EncodeWords(ws);
      assert b[..WORD] == LeU32(ws[0]);
      assert b[WORD..] == EncodeWords(ws[1..]);
      DecodeLeU32(ws[0]);
      DecodeEncodeWords(ws[1..]);
    }
  }

  lemma {:induction false} EncodeDecodeWords(b: seq<byte>)
    requires |b| % WORD == 0
    ensures EncodeWords(DecodeWords(b)) == b
  {
    if b != [] {
      var ws := DecodeWords(b);
      assert ws[1..] == DecodeWords(b[WORD..]);
      LeU32Decode(b[..WORD]);
      EncodeDecodeWords(b[WORD..]);
      assert b == b[..WORD] + b[WORD..];
    }
  }

  /** Word `k` of an encoding occupies bytes `4k .. 4k+4`. */
  lemma {:induction false} EncodeWordsAt(ws: seq<u32>, k: nat)
    requires k < |ws|
    ensures EncodeWords(ws)[WORD * k .. WORD * k + WORD] == LeU32(ws[k])
  {
    var b := EncodeWords(ws);
    if k == 0 {
      assert b[..WORD] == LeU32(ws[0]);
    } else {
      EncodeWordsAt(ws[1..], k - 1);
      assert b[WORD..] == EncodeWords(ws[1..]);
      assert b[WORD * k .. WORD * k + WORD] == b[WORD..][WORD * (k - 1) .. WORD * (k - 1) + WORD];
    }
  }

  /** Word `k` of a decoding is the word at bytes `4k .. 4k+4`. */
  lemma {:induction false} DecodeWordsAt(b: seq<byte>, k: nat)
    requires |b| % WORD == 0 && WORD * k + WORD <= |b|
    ensures DecodeWords(b)[k] == DecodeU32(b[WORD * k .. WORD * k + WORD])
  {
    if k > 0 {
      DecodeWordsAt(b[WORD..], k - 1);
      assert b[WORD..][WORD * (k - 1) .. WORD * (k - 1) + WORD] == b[WORD * k .. WORD * k + WORD];
    }
  }

  /** `s` with `data` written over it at `off` (a slice assignment on a buffer). */
  function Splice(s: seq<byte>, off: nat, data: seq<byte>): (r: seq<byte>)
    requires off + |data| <= |s|
    ensures |r| == |s|
  {
    seq(|s|, i requires 0 <= i < |s| => if off <= i < off + |data| then data[i - off] else s[i])
  }

  /** `struct.unpack_from("<I", s, off)[0]` */
  function U32At(s: seq<byte>, off: nat): u32
    requires off + WORD <= |s|
  {
    DecodeU32(s[off .. off + WORD])
  }

  /** Reading back a word just written at the same offset gives that word. */
  lemma U32AtSplice(s: seq<byte>, off: nat, v: u32)
    requires off + WORD <= |s|
    ensures U32At(Splice(s, off, LeU32(v)), off) == v
  {
    DecodeLeU32(v);
  }

  /** Writing twice at the same place leaves only the second write. */
  lemma SpliceTwice(s: seq<byte>, off: nat, d1: seq<byte>, d2: seq<byte>)
    requires off + |d1| <= |s| && |d2| == |d1|
    ensures Splice(Splice(s, off, d1), off, d2) == Splice(s, off, d2)
  {
    assert Splice(Splice(s, off, d1), off, d2) == s[..off] + d2 + s[off + |d1|..];
  }

  /** Two writes side by side are one write of both. */
  lemma SpliceAdjacent(s: seq<byte>, off: nat, a: seq<byte>, b: seq<byte>)
    requires off + |a| + |b| <= |s|
    ensures Splice(Splice(s, off + |a|, b), off, a) == Splice(s, off, a + b)
  {
    assert Splice(Splice(s, off + |a|, b), off, a) == s[..off] + (a + b) + s[off + |a| + |b|..];
  }

  /** A write that covers an earlier one from the same offset hides it. */
  lemma SpliceCovers(s: seq<byte>, off: nat, d1: seq<byte>, d2: seq<byte>)
    requires off + |d2| <= |s| && |d1| <= |d2|
    ensures Splice(Splice(s, off, d1), off, d2) == Splice(s, off, d2)
  {
    assert Splice(Splice(s, off, d1), off, d2) == s[..off] + d2 + s[off + |d2|..];
  }

  /** Overwriting the front of an earlier write keeps the rest of it. */
  lemma SpliceOverPrefix(s: seq<byte>, off: nat, a: seq<byte>, b: seq<byte>, c: seq<byte>)
    requires off + |a| + |b| <= |s| && |c| == |a|
    ensures Splice(Splice(s, off, a + b), off, c) == Splice(s, off, c + b)
  {
    assert Splice(Splice(s, off, a + b), off, c) == s[..off] + (c + b) + s[off + |a| + |b|..];
  }

  /** Writing over a region what it already holds changes nothing. */
  lemma SpliceSame(s: seq<byte>, off: nat, data: seq<byte>)
    requires off + |data| <= |s| && s[off .. off + |data|] == data
    ensures Splice(s, off, data) == s
  {
    assert s == s[..off] + s[off .. off + |data|] + s[off + |data|..];
  }

  /** Writes to disjoint regions commute. */
  lemma SpliceCommute(s: seq<byte>, o1: nat, d1: seq<byte>, o2: nat, d2: seq<byte>)
    requires o1 + |d1| <= o2 && o2 + |d2| <= |s|
    ensures Splice(Splice(s, o1, d1), o2, d2) == Splice(Splice(s, o2, d2), o1, d1)
  {
    var r := s[..o1] + d1 + s[o1 + |d1| .. o2] + d2 + s[o2 + |d2|..];
    assert Splice(Splice(s, o1, d1), o2, d2) == r;
    assert Splice(Splice(s, o2, d2), o1, d1) == r;
  }

  /** Reading back a region just written gives what was written there. */
  lemma SpliceRead(s: seq<byte>, off: nat, data: seq<byte>, i: nat, j: nat)
    requires off + |data| <= |s| && i <= j <= |data|
    ensures Splice(s, off, data)[off + i .. off + j] == data[i..j]
  {
  }

  /** A write of two parts in a row puts each part in its place. */
  lemma SplicePair(s: seq<byte>, off: nat, a: seq<byte>, b: seq<byte>)
    requires off + |a| + |b| <= |s|
    ensures Splice(s, off, a + b)[off .. off + |a|] == a
    ensures Splice(s, off, a + b)[off + |a| .. off + |a| + |b|] == b
  {
    SpliceRead(s, off, a + b, 0, |a|);
    SpliceRead(s, off, a + b, |a|, |a| + |b|);
    assert (a + b)[0..|a|] == a;
    assert (a + b)[|a| .. |a| + |b|] == b;
  }

  /** A write leaves the bytes before it as they were. */
  lemma SpliceKeeps(s: seq<byte>, off: nat, data: seq<byte>, i: nat, j: nat)
    requires off + |data| <= |s| && i <= j <= off
    ensures Splice(s, off, data)[i..j] == s[i..j]
  {
  }
}
