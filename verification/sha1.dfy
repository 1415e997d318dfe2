/** SHA-1 as FIPS 180-4 (sections 5.1.1, 5.3.1 and 6.1) defines it: the digest
    `crypto/sha1.Sum` returns over the proof-of-work preimage. Only its size is
    stated; the model relies on nothing else about it. */
module Sha1 {
  import opened Wire

  type word = bv32

  datatype State = State(h0: word, h1: word, h2: word, h3: word, h4: word)

  const InitialState: State :=
    State(0x67452301, 0xEFCDAB89, 0x98BADCFE, 0x10325476, 0xC3D2E1F0)

  /** The 20-byte digest of `m`. */
  function Digest(m: seq<byte>): (d: seq<byte>)
    ensures |d| == 20
  {
    HashBlocks(Padded(m), InitialState)
  }

  /** Section 6.1.2 step 4 and its end: the final hash value H0..H4 as 20 bytes. */
  function StateBytes(st: State): (d: seq<byte>)
    ensures |d| == 20
  {
    WordBytes(st.h0) + WordBytes(st.h1) + WordBytes(st.h2) + WordBytes(st.h3) + WordBytes(st.h4)
  }

  /** Section 5.1.1: a 1 bit, zeros up to 56 mod 64 bytes, then the message
      length in bits as a 64-bit big-endian number. */
  function Padded(m: seq<byte>): (p: seq<byte>)
    ensures |p| % 64 == 0
  {
    var zeros := 63 - (|m| + 8) % 64;
    PaddingFillsBlock(|m|);
    m + [0x80] + seq(zeros, _ => 0) + LengthBytes(|m| * 8 % 0x1_0000_0000_0000_0000)
  }

  /** One marker byte, the zeros and eight length bytes end on a block boundary. */
  lemma PaddingFillsBlock(n: nat)
    ensures (n + 1 + (63 - (n + 8) % 64) + 8) % 64 == 0
  {
    var q, r := (n + 8) / 64, (n + 8) % 64;
    assert n + 8 == q * 64 + r;
    assert n + 1 + (63 - r) + 8 == (q + 1) * 64;
  }

  function LengthBytes(bits: nat): (r: seq<byte>)
    ensures |r| == 8
  {
    [bits / 0x100_0000_0000_0000 % 256, bits / 0x1_0000_0000_0000 % 256,
     bits / 0x100_0000_0000 % 256, bits / 0x1_0000_0000 % 256,
     bits / 0x100_0000 % 256, bits / 0x1_0000 % 256, bits / 0x100 % 256, bits % 256]
  }

  /** A word written most significant byte first. */
  function WordBytes(w: word): (r: seq<byte>)
    ensures |r| == 4
  {
    var v := w as int;
    [v / 0x100_0000 % 256, v / 0x1_0000 % 256, v / 0x100 % 256, v % 256]
  }

  /** The big-endian word at `block[j..j + 4]`. */
  function WordAt(block: seq<byte>, j: nat): word
    requires j + 4 <= |block|
  {
    (block[j] as word << 24) | (block[j + 1] as word << 16) | (block[j + 2] as word << 8) | block[j + 3] as word
  }

  /** Section 6.1.2: the 512-bit blocks of `p` processed in order from hash
      value `st`, and the digest of the final hash value once none is left.
      Each block goes through ScheduleThen and CompressThen, which carry on
      with the blocks after it. */
  function HashBlocks(p: seq<byte>, st: State): (d: seq<byte>)
    ensures |d| == 20
    decreases |p|, 2, 0
  {
    if |p| < 64 then StateBytes(st) else ScheduleThen(p[..64], [], st, p[64..])
  }

  /** Section 6.1.2 step 1: the message schedule W0..W79 of `block`, one word
      per step, W0..W15 read from the block and the rest expanded; then the
      block's rounds. */
  function ScheduleThen(block: seq<byte>, w: seq<word>, st: State, rest: seq<byte>): (d: seq<byte>)
    requires |block| == 64 && |w| <= 80
    ensures |d| == 20
    decreases |rest| + 64, 1, 80 - |w|
  {
    if |w| == 80 then CompressThen(w, st, st, rest)
    else
      var t := |w|;
      var next := if t < 16 then WordAt(block, 4 * t)
                  else (w[t - 3] ^ w[t - 8] ^ w[t - 14] ^ w[t - 16]).RotateLeft(1);
      ScheduleThen(block, w + [next], st, rest)
  }

  /** Section 6.1.2 steps 2-4 for the block with initial hash value `st`: one
      round per schedule word left in `w` (round t = 80 - |w| takes w[0]) on
      the working variables a..e held in `v`; then the working variables are
      added into `st` and the blocks in `rest` follow. */
  function CompressThen(w: seq<word>, v: State, st: State, rest: seq<byte>): (d: seq<byte>)
    requires |w| <= 80
    ensures |d| == 20
    decreases |rest| + 64, 0, |w|
  {
    if |w| == 0 then
      HashBlocks(rest, State(st.h0 + v.h0, st.h1 + v.h1, st.h2 + v.h2, st.h3 + v.h3, st.h4 + v.h4))
    else
      var t := 80 - |w|;
      var a, b, c, d, e := v.h0, v.h1, v.h2, v.h3, v.h4;
      var temp := a.RotateLeft(5) + Mix(t, b, c, d) + e + RoundConstant(t) + w[0];
      CompressThen(w[1..], State(temp, a, b.RotateLeft(30), c, d), st, rest)
  }

  /** Section 4.1.1: Ch, Parity, Maj, Parity. */
  function Mix(t: nat, b: word, c: word, d: word): word {
    if t < 20 then (b & c) | (!b & d)
    else if t < 40 then b ^ c ^ d
    else if t < 60 then (b & c) | (b & d) | (c & d)
    else b ^ c ^ d
  }

  /** Section 4.2.1. */
  function RoundConstant(t: nat): word {
    if t < 20 then 0x5A827999
    else if t < 40 then 0x6ED9EBA1
    else if t < 60 then 0x8F1BBCDC
    else 0xCA62C1D6
  }
}
