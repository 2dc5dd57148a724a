/** XXH32 and XXH64: one-shot and streaming (src/xxhash.h).

    They differ in the block, the width of the arithmetic and how a first block is remembered. The lane
    function, the merging of the lanes and the final mix are arbitrary. */
module Xxh32 {
  import opened Chunks
  import opened Memory
  import opened Remainders

  const PRIME32_1 := 0x9E3779B1
  const PRIME32_2 := 0x85EBCA77
  const PRIME32_5 := 0x165667B1
  const PRIME64_1 := 0x9E3779B185EBCA87
  const PRIME64_2 := 0xC2B2AE3D27D4EB4F
  const PRIME64_5 := 0x27D4EB2F165667C5
  const TWO_TO_THE_32 := 0x1_0000_0000
  const TWO_TO_THE_64 := 0x1_0000_0000_0000_0000

  /** The accumulators v1 to v4. */
  datatype Lanes = Lanes(v1: nat, v2: nat, v3: nat, v4: nat)

  /** The arithmetic of XXH64 if wide, else of XXH32. */
  datatype Kernel = Kernel(
    wide: bool,
    round: (nat, seq<Byte>) -> nat,
    converge: Lanes -> nat,
    finalize: (nat, seq<Byte>) -> nat)
  {
    function Lane(): nat {
      if wide then 8 else 4
    }

    function BlockLen(): nat {
      4 * Lane()
    }

    function Modulus(): nat {
      if wide then TWO_TO_THE_64 else TWO_TO_THE_32
    }

    function Init(seed: nat): Lanes
      requires seed < Modulus()
    {
      var p1, p2 := if wide then PRIME64_1 else PRIME32_1, if wide then PRIME64_2 else PRIME32_2;
      Lanes((seed + p1 + p2) % Modulus(), (seed + p2) % Modulus(), seed, (seed + Modulus() - p1) % Modulus())
    }

    /** What stands in for the lanes when there was no block. */
    function Small(seed: nat): nat {
      (seed + if wide then PRIME64_5 else PRIME32_5) % Modulus()
    }
  }

  // ----- What is computed -----

  /** One block: each lane takes its quarter. */
  function Round(k: Kernel, v: Lanes, block: seq<Byte>): Lanes
    requires |block| == k.BlockLen()
  {
    var n := k.Lane();
    Lanes(k.round(v.v1, block[..n]), k.round(v.v2, block[n..2 * n]), k.round(v.v3, block[2 * n..3 * n]),
      k.round(v.v4, block[3 * n..]))
  }

  /** All whole blocks of s, from the lanes v. */
  function Rounds(k: Kernel, v: Lanes, s: seq<Byte>): Lanes
    decreases |s|
  {
    var n := k.BlockLen();
    if |s| < n then v else Rounds(k, Round(k, v, s[..n]), s[n..])
  }

  /** What the whole blocks leave. */
  function Left(k: Kernel, s: seq<Byte>): (t: seq<Byte>)
    ensures |t| < k.BlockLen() && |t| <= |s|
    decreases |s|
  {
    var n := k.BlockLen();
    if |s| < n then s else Left(k, s[n..])
  }

  /** XXH32 or XXH64 of an input. */
  function Hash(k: Kernel, seed: nat, data: seq<Byte>): nat
    requires seed < k.Modulus()
  {
    var h := if |data| >= k.BlockLen() then k.converge(Rounds(k, k.Init(seed), data)) else k.Small(seed);
    k.finalize((h + |data|) % k.Modulus(), Left(k, data))
  }

  // ----- What that is, lane by lane -----

  /** A lane that takes the pieces one after the other. */
  function Fold(round: (nat, seq<Byte>) -> nat, v: nat, pieces: seq<seq<Byte>>): nat
    decreases |pieces|
  {
    if pieces == [] then v else Fold(round, round(v, pieces[0]), pieces[1..])
  }

  /** Bytes `from` to `to` of each whole block. */
  function Pieces(data: seq<Byte>, block: nat, from: nat, to: nat): (ps: seq<seq<Byte>>)
    requires 0 < block && from <= to <= block
    ensures |ps| == |data| / block
  {
    seq(|data| / block, i requires 0 <= i < |data| / block =>
      assert block * i + block <= |data| by { WholeBlock(|data|, block, i); }
      data[block * i + from..block * i + to])
  }

  lemma WholeBlock(len: nat, block: nat, i: nat)
    requires 0 < block && i < len / block
    ensures block * i + block <= len
  {
    var q := len / block;
    AtLeastOnce(block, q - i);
    assert block * q == block * i + block * (q - i);
  }

  lemma PiecesFirst(data: seq<Byte>, block: nat, from: nat, to: nat)
    requires 0 < block <= |data| && from <= to <= block
    ensures Pieces(data, block, from, to) == [data[from..to]] + Pieces(data[block..], block, from, to)
  {
    var rest := data[block..];
    assert |data| / block == |rest| / block + 1 by {
      RemainderUnique(|data|, block, |rest| / block + 1, |rest| % block);
    }
    forall i: nat | i < |rest| / block
      ensures Pieces(data, block, from, to)[i + 1] == Pieces(rest, block, from, to)[i]
    {
      WholeBlock(|rest|, block, i);
      assert block * (i + 1) == block * i + block;
      assert rest[block * i + from..block * i + to] == data[block * (i + 1) + from..block * (i + 1) + to];
    }
    assert block * 0 == 0;
  }

  lemma FoldFirst(round: (nat, seq<Byte>) -> nat, v: nat, piece: seq<Byte>, pieces: seq<seq<Byte>>)
    ensures Fold(round, v, [piece] + pieces) == Fold(round, round(v, piece), pieces)
  {
    assert ([piece] + pieces)[1..] == pieces;
  }

  /** Each lane takes its quarter of every whole block. */
  lemma {:induction false} LaneByLane(k: Kernel, v: Lanes, s: seq<Byte>)
    ensures var n := if k.wide then 8 else 4;
      Rounds(k, v, s) == Lanes(
        Fold(k.round, v.v1, Pieces(s, 4 * n, 0, n)),
        Fold(k.round, v.v2, Pieces(s, 4 * n, n, 2 * n)),
        Fold(k.round, v.v3, Pieces(s, 4 * n, 2 * n, 3 * n)),
        Fold(k.round, v.v4, Pieces(s, 4 * n, 3 * n, 4 * n)))
    decreases |s|
  {
    hide Pieces;
    var n, m := k.Lane(), k.BlockLen();
    if |s| >= m {
      LaneByLane(k, Round(k, v, s[..m]), s[m..]);
      QuarterFirst(k, v.v1, s, 0, n);
      QuarterFirst(k, v.v2, s, n, 2 * n);
      QuarterFirst(k, v.v3, s, 2 * n, 3 * n);
      QuarterFirst(k, v.v4, s, 3 * n, 4 * n);
      assert s[..m][3 * n..] == s[..m][3 * n..4 * n];
    } else {
      assert |s| / m == 0;
    }
  }

  lemma QuarterFirst(k: Kernel, v: nat, s: seq<Byte>, from: nat, to: nat)
    requires |s| >= k.BlockLen() && from <= to <= k.BlockLen()
    ensures Fold(k.round, v, Pieces(s, k.BlockLen(), from, to))
      == Fold(k.round, k.round(v, s[..k.BlockLen()][from..to]), Pieces(s[k.BlockLen()..], k.BlockLen(), from, to))
  {
    hide Pieces, Fold;
    var m := k.BlockLen();
    PiecesFirst(s, m, from, to);
    assert s[..m][from..to] == s[from..to];
    FoldFirst(k.round, v, s[from..to], Pieces(s[m..], m, from, to));
  }

  /** What is left is what stands behind the whole blocks. */
  lemma {:induction false} LeftBehind(k: Kernel, s: seq<Byte>)
    ensures var m := if k.wide then 32 else 16; m * (|s| / m) <= |s| && Left(k, s) == s[m * (|s| / m)..]
    decreases |s|
  {
    var m := k.BlockLen();
    if |s| >= m {
      LeftBehind(k, s[m..]);
      BlockLess(m, |s|);
    }
  }

  lemma BlockLess(m: nat, len: nat)
    requires 0 < m <= len
    ensures m * (len / m) == m * ((len - m) / m) + m
  {
    var q, r := (len - m) / m, (len - m) % m;
    assert len - m == m * q + r && m * (q + 1) == m * q + m;
    RemainderUnique(len, m, q + 1, r);
  }

  lemma StartLanes(k: Kernel, seed: nat, len: nat)
    requires seed < k.Modulus()
    ensures !k.wide ==>
      k.Init(seed) == Lanes((seed + 0x9E3779B1 + 0x85EBCA77) % 0x1_0000_0000, (seed + 0x85EBCA77) % 0x1_0000_0000,
        seed, (seed - 0x9E3779B1) % 0x1_0000_0000)
    ensures k.wide ==>
      k.Init(seed) == Lanes((seed + 0x9E3779B185EBCA87 + 0xC2B2AE3D27D4EB4F) % 0x1_0000_0000_0000_0000,
        (seed + 0xC2B2AE3D27D4EB4F) % 0x1_0000_0000_0000_0000, seed,
        (seed - 0x9E3779B185EBCA87) % 0x1_0000_0000_0000_0000)
    ensures !k.wide ==> (k.Small(seed) + len) % 0x1_0000_0000 == (seed + 0x165667B1 + len) % 0x1_0000_0000
    ensures k.wide ==>
      (k.Small(seed) + len) % 0x1_0000_0000_0000_0000 == (seed + 0x27D4EB2F165667C5 + len) % 0x1_0000_0000_0000_0000
  {
    RemainderOfSum(len, seed + (if k.wide then PRIME64_5 else PRIME32_5), k.Modulus());
  }

  /** XXH32: four lanes of 4 bytes, started from the seed, and the total length modulo 2^32. */
  lemma Hash32(k: Kernel, seed: nat, data: seq<Byte>)
    requires !k.wide && seed < 0x1_0000_0000
    ensures 16 * (|data| / 16) <= |data|
    ensures var tail := data[16 * (|data| / 16)..];
      if |data| < 16 then Hash(k, seed, data) == k.finalize((seed + 0x165667B1 + |data|) % 0x1_0000_0000, data)
      else
        var v1 := Fold(k.round, (seed + 0x9E3779B1 + 0x85EBCA77) % 0x1_0000_0000, Pieces(data, 16, 0, 4));
        var v2 := Fold(k.round, (seed + 0x85EBCA77) % 0x1_0000_0000, Pieces(data, 16, 4, 8));
        var v3 := Fold(k.round, seed, Pieces(data, 16, 8, 12));
        var v4 := Fold(k.round, (seed - 0x9E3779B1) % 0x1_0000_0000, Pieces(data, 16, 12, 16));
        Hash(k, seed, data) == k.finalize((k.converge(Lanes(v1, v2, v3, v4)) + |data|) % 0x1_0000_0000, tail)
  {
    hide Pieces, Fold, Rounds, Left, Kernel.Init, Kernel.Small;
    StartLanes(k, seed, |data|);
    LaneByLane(k, k.Init(seed), data);
    LeftBehind(k, data);
  }

  /** XXH64: four lanes of 8 bytes, and the total length modulo 2^64. */
  lemma Hash64(k: Kernel, seed: nat, data: seq<Byte>)
    requires k.wide && seed < 0x1_0000_0000_0000_0000
    ensures 32 * (|data| / 32) <= |data|
    ensures var m, tail := 0x1_0000_0000_0000_0000, data[32 * (|data| / 32)..];
      if |data| < 32 then Hash(k, seed, data) == k.finalize((seed + 0x27D4EB2F165667C5 + |data|) % m, data)
      else
        var v1 := Fold(k.round, (seed + 0x9E3779B185EBCA87 + 0xC2B2AE3D27D4EB4F) % m, Pieces(data, 32, 0, 8));
        var v2 := Fold(k.round, (seed + 0xC2B2AE3D27D4EB4F) % m, Pieces(data, 32, 8, 16));
        var v3 := Fold(k.round, seed, Pieces(data, 32, 16, 24));
        var v4 := Fold(k.round, (seed - 0x9E3779B185EBCA87) % m, Pieces(data, 32, 24, 32));
        Hash(k, seed, data) == k.finalize((k.converge(Lanes(v1, v2, v3, v4)) + |data|) % m, tail)
  {
    hide Pieces, Fold, Rounds, Left, Kernel.Init, Kernel.Small;
    StartLanes(k, seed, |data|);
    LaneByLane(k, k.Init(seed), data);
    LeftBehind(k, data);
  }

  lemma {:induction false} LeftLength(k: Kernel, s: seq<Byte>)
    ensures |Left(k, s)| == |s| % k.BlockLen()
    decreases |s|
  {
    if |s| >= k.BlockLen() {
      LeftLength(k, s[k.BlockLen()..]);
    }
  }

  /** Hashing on: only the lanes and what is left of s matter for what comes after s. */
  lemma {:induction false} RoundsFurther(k: Kernel, v: Lanes, s: seq<Byte>, t: seq<Byte>)
    ensures Rounds(k, v, s + t) == Rounds(k, Rounds(k, v, s), Left(k, s) + t)
    ensures Left(k, s + t) == Left(k, Left(k, s) + t)
    decreases |s|
  {
    var n := k.BlockLen();
    if |s| >= n {
      assert (s + t)[..n] == s[..n] && (s + t)[n..] == s[n..] + t;
      RoundsFurther(k, Round(k, v, s[..n]), s[n..], t);
    }
  }

  /** The loop over the blocks, the same in XXH32_endian_align, XXH64_endian_align, XXH32_update and XXH64_update. */
  method Consume(k: Kernel, v: Lanes, input: seq<Byte>) returns (r: Lanes, p: nat)
    ensures p <= |input| && input[p..] == Left(k, input) && r == Rounds(k, v, input)
  {
    r, p := v, 0;
    var n := k.BlockLen();
    while p + n <= |input|
      invariant p <= |input| && Rounds(k, r, input[p..]) == Rounds(k, v, input) && Left(k, input[p..]) == Left(k, input)
      decreases |input| - p
    {
      assert input[p..][..n] == input[p..p + n] && input[p..][n..] == input[p + n..];
      r := Round(k, r, input[p..p + n]);
      p := p + n;
    }
  }

  // ----- One-shot -----

  /** XXH32 and XXH64 */
  method OneShot(k: Kernel, input: seq<Byte>, seed: nat) returns (h: nat)
    requires seed < k.Modulus()
    ensures h == Hash(k, seed, input)
  {
    var p := 0;
    if |input| >= k.BlockLen() {
      var v;
      v, p := Consume(k, k.Init(seed), input);
      h := k.converge(v);
    } else {
      h := k.Small(seed);
    }
    h := k.finalize((h + |input|) % k.Modulus(), input[p..]);
  }

  // ----- Streaming -----

  /** The total length as kept, and whether there was a block; only XXH32 has the flag, for its total wraps at 2^32. */
  ghost predicate Counted(k: Kernel, len: nat, totalLen: nat, largeLen: bool) {
    totalLen == len % k.Modulus() && (!k.wide ==> (largeLen <==> len >= 16))
  }

  lemma CountedMore(k: Kernel, len: nat, totalLen: nat, largeLen: bool, more: nat)
    requires Counted(k, len, totalLen, largeLen)
    ensures var total := (totalLen + more) % k.Modulus();
      Counted(k, len + more, total, largeLen || more >= 16 || total >= 16)
  {
    RemainderOfSum(more, len, k.Modulus());
  }

  /** What the digest reads from the counters. */
  lemma CountedLength(k: Kernel, len: nat, totalLen: nat, largeLen: bool, h: nat)
    requires Counted(k, len, totalLen, largeLen) && len < TWO_TO_THE_64
    ensures (if k.wide then totalLen >= 32 else largeLen) <==> len >= k.BlockLen()
    ensures (h + totalLen) % k.Modulus() == (h + len) % k.Modulus()
  {
  }

  /** XXH64_finalize takes the number of bytes left from the total. */
  lemma CountedLeft(k: Kernel, len: nat, totalLen: nat, largeLen: bool)
    requires Counted(k, len, totalLen, largeLen) && k.wide
    ensures totalLen % 32 == len % 32
  {
  }

  /** XXH32_state_t, XXH64_state_t */
  class State {
    const k: Kernel
    const mem: array<Byte>
    var v: Lanes
    var memsize: nat
    var totalLen: nat
    var largeLen: bool

    ghost const seed: nat
    ghost var data: seq<Byte>

    ghost predicate Valid()
      reads this, mem
    {
      && mem.Length == k.BlockLen() && memsize < k.BlockLen()
      && seed < k.Modulus() && v == Rounds(k, k.Init(seed), data) && mem[..memsize] == Left(k, data)
      && Counted(k, |data|, totalLen, largeLen)
    }

    /** XXH32_reset, XXH64_reset */
    constructor (k: Kernel, seed: nat)
      requires seed < k.Modulus()
      ensures Valid() && data == [] && this.k == k && this.seed == seed && fresh(mem)
    {
      this.k, this.seed := k, seed;
      mem := new Byte[k.BlockLen()](_ => 0);
      v, memsize, totalLen, largeLen := k.Init(seed), 0, 0, false;
      data := [];
    }

    /** XXH32_update, XXH64_update */
    method Update(input: seq<Byte>)
      requires Valid()
      modifies this, mem
      ensures Valid() && data == old(data) + input
      // memsize is the total length modulo the block
      ensures memsize == |data| % k.BlockLen()
    {
      hide Rounds, Left, Round, Counted, Kernel.Init, Kernel.Modulus;
      ghost var left := mem[..memsize];
      RoundsFurther(k, k.Init(seed), data, input);
      CountedMore(k, |data|, totalLen, largeLen, |input|);
      totalLen := (totalLen + |input|) % k.Modulus();
      largeLen := largeLen || |input| >= 16 || totalLen >= 16;
      if memsize + |input| < k.BlockLen() {
        TooShort(k, v, left + input);
        CopyIn(mem, memsize, input);
        memsize := memsize + |input|;
        assert mem[..memsize] == left + input;
      } else {
        Absorb(input);
      }
      data := data + input;
      LeftLength(k, data);
    }

    /** At least one block is complete. */
    method Absorb(input: seq<Byte>)
      requires mem.Length == k.BlockLen() && memsize < k.BlockLen() <= memsize + |input|
      modifies this`v, this`memsize, mem
      ensures memsize < k.BlockLen()
      ensures v == Rounds(k, old(v), old(mem[..memsize]) + input)
      ensures mem[..memsize] == Left(k, old(mem[..memsize]) + input)
    {
      hide Rounds, Left, Round;
      ghost var s := mem[..memsize] + input;
      var p := 0;
      if memsize > 0 {
        p := FirstBlock(input);
      } else {
        assert s == input[p..];
      }
      var rest, done := input[p..], 0;
      v, done := Consume(k, v, rest);
      LeftLength(k, rest);
      CopyIn(mem, 0, rest[done..]);
      memsize := |rest| - done;
    }

    /** The block that begins with the bytes buffered. */
    method FirstBlock(input: seq<Byte>) returns (p: nat)
      requires mem.Length == k.BlockLen() && 0 < memsize < k.BlockLen() <= memsize + |input|
      modifies this`v, mem
      ensures p == k.BlockLen() - memsize
      ensures Rounds(k, v, input[p..]) == Rounds(k, old(v), old(mem[..memsize]) + input)
      ensures Left(k, input[p..]) == Left(k, old(mem[..memsize]) + input)
    {
      hide Rounds, Left, Round;
      ghost var s := mem[..memsize] + input;
      p := k.BlockLen() - memsize;
      CopyIn(mem, memsize, input[..p]);
      assert mem[..] == s[..k.BlockLen()];
      OneBlock(k, v, s);
      v := Round(k, v, mem[..]);
      assert s[k.BlockLen()..] == input[p..];
    }

    /** XXH32_digest, XXH64_digest: the one-shot hash of everything hashed so far. */
    method Digest() returns (h: nat)
      requires Valid()
      ensures |data| < TWO_TO_THE_64 ==> h == Hash(k, seed, data)
    {
      hide Rounds, Left, Counted;
      LeftLength(k, data);
      if k.wide {
        CountedLeft(k, |data|, totalLen, largeLen);
      }
      var large := if k.wide then totalLen >= 32 else largeLen;
      if large {
        h := k.converge(v);
      } else {
        h := k.Small(v.v3);
      }
      if |data| < TWO_TO_THE_64 {
        CountedLength(k, |data|, totalLen, largeLen, h);
        if |data| < k.BlockLen() {
          TooShort(k, k.Init(seed), data);
        }
      }
      h := k.finalize((h + totalLen) % k.Modulus(), mem[..if k.wide then totalLen % 32 else memsize]);
    }
  }

  lemma TooShort(k: Kernel, v: Lanes, s: seq<Byte>)
    requires |s| < k.BlockLen()
    ensures Rounds(k, v, s) == v && Left(k, s) == s
  {
  }

  lemma OneBlock(k: Kernel, v: Lanes, s: seq<Byte>)
    requires |s| >= k.BlockLen()
    ensures Rounds(k, v, s) == Rounds(k, Round(k, v, s[..k.BlockLen()]), s[k.BlockLen()..])
    ensures Left(k, s) == Left(k, s[k.BlockLen()..])
  {
  }

  /** For every input and every way of cutting it into updates, the streaming digest is the one-shot hash. */
  method HashChunks(k: Kernel, seed: nat, chunks: seq<seq<Byte>>) returns (h: nat)
    requires seed < k.Modulus() && |Concat(chunks)| < TWO_TO_THE_64
    ensures h == Hash(k, seed, Concat(chunks))
  {
    hide Hash, Rounds, Left;
    var state := new State(k, seed);
    for i := 0 to |chunks|
      invariant state.Valid() && state.k == k && state.seed == seed && state.data == Concat(chunks[..i])
      invariant fresh(state) && fresh(state.mem)
    {
      state.Update(chunks[i]);
      ConcatNext(chunks, i);
    }
    assert chunks[..|chunks|] == chunks;
    h := state.Digest();
  }
}
