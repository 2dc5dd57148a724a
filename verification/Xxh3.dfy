/** XXH3: long-input hashing, one-shot and streaming (src/xxhash.h).

    The lane arithmetic is arbitrary: what is proved is the bookkeeping of stripes, blocks and buffer. */
module Xxh3 {
  import opened Chunks
  import opened Memory
  import opened Remainders

  const STRIPE_LEN := 64
  const SECRET_CONSUME_RATE := 8
  const SECRET_SIZE_MIN := 136
  const SECRET_LASTACC_START := 7
  const INTERNALBUFFER_SIZE := 256
  const MIDSIZE_MAX := 240
  const TWO_TO_THE_64 := 0x1_0000_0000_0000_0000

  /** The arithmetic under one fixed secret, on lanes L with digests H; the numbers are offsets into the secret. */
  datatype Kernel<!L, H> = Kernel(
    init: L,
    accumulate512: (L, seq<Byte>, nat) -> L,
    scramble: (L, nat) -> L,
    merge: (L, nat) -> H,
    short: seq<Byte> -> H,
    secretSize: nat)
  {
    predicate Ok() {
      secretSize >= SECRET_SIZE_MIN
    }

    function SecretLimit(): (n: nat)
      requires Ok()
      ensures n >= 72
    {
      secretSize - STRIPE_LEN
    }

    function StripesPerBlock(): (n: nat)
      requires Ok()
      ensures n >= 9
    {
      SecretLimit() / SECRET_CONSUME_RATE
    }
  }

  // ----- What is computed: one stripe at a time -----

  /** The lanes and the number of stripes since the last scramble. */
  datatype Block<L> = Block(acc: L, stripes: nat)

  /** One more stripe; the block's last one is followed by a scramble. */
  function Step<L, H>(k: Kernel<L, H>, b: Block<L>, stripe: seq<Byte>): Block<L>
    requires k.Ok()
  {
    var acc := k.accumulate512(b.acc, stripe, SECRET_CONSUME_RATE * b.stripes);
    if b.stripes + 1 == k.StripesPerBlock() then Block(k.scramble(acc, k.SecretLimit()), 0)
      else Block(acc, b.stripes + 1)
  }

  /** The first n stripes of s, from state b. */
  function Consumed<L, H>(k: Kernel<L, H>, b: Block<L>, s: seq<Byte>, n: nat): Block<L>
    requires k.Ok() && STRIPE_LEN * n <= |s|
  {
    if n == 0 then b
    else Step(k, Consumed(k, b, s, n - 1), s[STRIPE_LEN * (n - 1)..STRIPE_LEN * n])
  }

  /** The stripes of an input but for its last bytes, of which there is at least one. */
  function StripesOf(len: nat): nat
    requires len > 0
  {
    (len - 1) / STRIPE_LEN
  }

  /** The last stripe is the last 64 bytes, whatever of them was consumed already. */
  function WithLastStripe<L, H>(k: Kernel<L, H>, acc: L, stripe: seq<Byte>): L
    requires k.Ok()
  {
    k.accumulate512(acc, stripe, k.SecretLimit() - SECRET_LASTACC_START)
  }

  function Long<L, H>(k: Kernel<L, H>, data: seq<Byte>): H
    requires k.Ok() && |data| > STRIPE_LEN
  {
    var acc := Consumed(k, Block(k.init, 0), data, StripesOf(|data|)).acc;
    k.merge(WithLastStripe(k, acc, data[|data| - STRIPE_LEN..]), |data|)
  }

  /** XXH3_64bits of an input under one secret and seed. */
  function Hash<L, H>(k: Kernel<L, H>, data: seq<Byte>): H
    requires k.Ok()
  {
    if |data| <= MIDSIZE_MAX then k.short(data) else Long(k, data)
  }

  // ----- About consuming stripes -----

  /** Scrambles come after every StripesPerBlock stripes of the input, however it was cut. */
  lemma {:induction false} StripesSinceScramble<L, H>(k: Kernel<L, H>, b: Block<L>, s: seq<Byte>, n: nat)
    requires k.Ok() && STRIPE_LEN * n <= |s| && b.stripes < k.StripesPerBlock()
    ensures Consumed(k, b, s, n).stripes == (b.stripes + n) % k.StripesPerBlock()
  {
    hide Step, Kernel.StripesPerBlock;
    var nb := k.StripesPerBlock();
    if n > 0 {
      StripesSinceScramble(k, b, s, n - 1);
      NextRemainder(b.stripes + n - 1, nb);
      StepStripes(k, Consumed(k, b, s, n - 1), s[STRIPE_LEN * (n - 1)..STRIPE_LEN * n]);
    } else {
      RemainderUnique(b.stripes, nb, 0, b.stripes);
    }
  }

  lemma StepStripes<L, H>(k: Kernel<L, H>, b: Block<L>, stripe: seq<Byte>)
    requires k.Ok()
    ensures Step(k, b, stripe).stripes == if b.stripes + 1 == k.StripesPerBlock() then 0 else b.stripes + 1
  {
    hide Kernel.StripesPerBlock;
  }

  lemma NextRemainder(m: nat, n: nat)
    requires n > 0
    ensures (m + 1) % n == if m % n + 1 == n then 0 else m % n + 1
  {
    var q, r := m / n, m % n;
    assert m == n * q + r;
    if r + 1 == n {
      assert m + 1 == n * (q + 1);
      RemainderUnique(m + 1, n, q + 1, 0);
    } else {
      RemainderUnique(m + 1, n, q, r + 1);
    }
  }

  /** Only the stripes consumed matter. */
  lemma {:induction false} SameStripes<L, H>(k: Kernel<L, H>, b: Block<L>, s: seq<Byte>, t: seq<Byte>, n: nat)
    requires k.Ok() && STRIPE_LEN * n <= |s| && STRIPE_LEN * n <= |t|
    requires s[..STRIPE_LEN * n] == t[..STRIPE_LEN * n]
    ensures Consumed(k, b, s, n) == Consumed(k, b, t, n)
  {
    if n > 0 {
      var m := STRIPE_LEN * (n - 1);
      assert s[..m] == s[..STRIPE_LEN * n][..m] == t[..m];
      assert s[m..STRIPE_LEN * n] == s[..STRIPE_LEN * n][m..] == t[m..STRIPE_LEN * n];
      SameStripes(k, b, s, t, n - 1);
    }
  }

  /** Consuming m stripes and then n more. */
  lemma {:induction false} ConsumedTwice<L, H>(k: Kernel<L, H>, b: Block<L>, s: seq<Byte>, m: nat, n: nat)
    requires k.Ok() && STRIPE_LEN * (m + n) <= |s|
    ensures Consumed(k, Consumed(k, b, s, m), s[STRIPE_LEN * m..], n) == Consumed(k, b, s, m + n)
  {
    if n > 0 {
      ConsumedTwice(k, b, s, m, n - 1);
      var t := s[STRIPE_LEN * m..];
      assert t[STRIPE_LEN * (n - 1)..STRIPE_LEN * n] == s[STRIPE_LEN * (m + n - 1)..STRIPE_LEN * (m + n)];
    }
  }

  // ----- XXH3_accumulate -----

  function Accumulated<L, H>(k: Kernel<L, H>, acc: L, s: seq<Byte>, secret: nat, n: nat): L
    requires STRIPE_LEN * n <= |s|
  {
    if n == 0 then acc
    else k.accumulate512(Accumulated(k, acc, s, secret, n - 1), s[STRIPE_LEN * (n - 1)..STRIPE_LEN * n],
      secret + SECRET_CONSUME_RATE * (n - 1))
  }

  /** The loop over stripes that stays inside one block. */
  method Accumulate<L, H>(k: Kernel<L, H>, acc: L, s: seq<Byte>, secret: nat, n: nat) returns (r: L)
    requires STRIPE_LEN * n <= |s|
    ensures r == Accumulated(k, acc, s, secret, n)
  {
    r := acc;
    for i := 0 to n
      invariant r == Accumulated(k, acc, s, secret, i)
    {
      r := k.accumulate512(r, s[STRIPE_LEN * i..STRIPE_LEN * (i + 1)], secret + SECRET_CONSUME_RATE * i);
    }
  }

  /** Inside a block no scramble is due. */
  lemma {:induction false} InsideBlock<L, H>(k: Kernel<L, H>, b: Block<L>, s: seq<Byte>, n: nat)
    requires k.Ok() && STRIPE_LEN * n <= |s| && b.stripes + n < k.StripesPerBlock()
    ensures Consumed(k, b, s, n) == Block(Accumulated(k, b.acc, s, SECRET_CONSUME_RATE * b.stripes, n), b.stripes + n)
  {
    if n > 0 {
      InsideBlock(k, b, s, n - 1);
    }
  }

  /** The rest of a block and the scramble. */
  lemma WholeBlock<L, H>(k: Kernel<L, H>, b: Block<L>, s: seq<Byte>, n: nat)
    requires k.Ok() && STRIPE_LEN * n <= |s| && n > 0 && b.stripes + n == k.StripesPerBlock()
    ensures Consumed(k, b, s, n)
      == Block(k.scramble(Accumulated(k, b.acc, s, SECRET_CONSUME_RATE * b.stripes, n), k.SecretLimit()), 0)
  {
    InsideBlock(k, b, s, n - 1);
  }

  // ----- One-shot -----

  /** XXH3_hashLong_64b_internal: whole blocks, the stripes left, the last stripe. */
  method HashLong<L, H>(k: Kernel<L, H>, input: seq<Byte>) returns (h: H)
    requires k.Ok() && |input| > STRIPE_LEN
    ensures h == Long(k, input)
  {
    hide Consumed, Accumulated, Long, StripesOf;
    var acc, from;
    ghost var done;
    acc, from, done := HashBlocks(k, input);
    h := HashTail(k, input, from, done, acc);
  }

  /** The stripes behind the whole blocks, and the last stripe. */
  method HashTail<L, H>(k: Kernel<L, H>, input: seq<Byte>, from: nat, ghost done: nat, acc: L) returns (h: H)
    requires k.Ok() && |input| > STRIPE_LEN && from == STRIPE_LEN * done < |input|
    requires done + (|input| - 1 - from) / STRIPE_LEN == StripesOf(|input|)
    requires (|input| - 1 - from) / STRIPE_LEN < k.StripesPerBlock()
    requires Consumed(k, Block(k.init, 0), input, done) == Block(acc, 0)
    ensures h == Long(k, input)
  {
    hide Consumed, Accumulated;
    var rest := input[from..];
    var nbStripes := (|input| - 1 - from) / STRIPE_LEN;
    InsideBlock(k, Block(acc, 0), rest, nbStripes);
    ConsumedTwice(k, Block(k.init, 0), input, done, nbStripes);
    var lanes := Accumulate(k, acc, rest, 0, nbStripes);
    lanes := k.accumulate512(lanes, input[|input| - STRIPE_LEN..], k.SecretLimit() - SECRET_LASTACC_START);
    h := k.merge(lanes, |input|);
  }

  /** The loop over whole blocks. */
  method HashBlocks<L, H>(k: Kernel<L, H>, input: seq<Byte>) returns (acc: L, from: nat, ghost done: nat)
    requires k.Ok() && |input| > STRIPE_LEN
    ensures from == STRIPE_LEN * done < |input|
    ensures done + (|input| - 1 - from) / STRIPE_LEN == StripesOf(|input|)
    ensures (|input| - 1 - from) / STRIPE_LEN < k.StripesPerBlock()
    ensures Consumed(k, Block(k.init, 0), input, done) == Block(acc, 0)
  {
    hide Consumed, Accumulated, WholeBlocks, Product;
    var nb := k.StripesPerBlock();
    var blockLen := STRIPE_LEN * nb;
    var nbBlocks := WholeBlocks(|input|, blockLen);
    acc := k.init;
    ghost var start := Block(k.init, 0);
    from, done := 0, 0;
    ConsumedNone(k, start, input);
    NoBlocks(nb);
    for n := 0 to nbBlocks
      invariant done == Product(n, nb) && from == STRIPE_LEN * done <= |input|
      invariant Consumed(k, start, input, done) == Block(acc, 0)
    {
      BlockFits(|input|, nb, n, done);
      acc := HashBlock(k, input, from, done, acc);
      from, done := from + blockLen, done + nb;
    }
    BlocksFit(|input|, nb, done);
  }

  function WholeBlocks(len: nat, blockLen: nat): nat
    requires len > 0 && blockLen > 0
  {
    (len - 1) / blockLen
  }

  ghost function Product(n: nat, nb: nat): nat {
    n * nb
  }

  lemma NoBlocks(nb: nat)
    ensures Product(0, nb) == 0
  {
  }

  /** One whole block. */
  method HashBlock<L, H>(k: Kernel<L, H>, input: seq<Byte>, from: nat, ghost done: nat, acc: L) returns (r: L)
    requires k.Ok() && from == STRIPE_LEN * done && from + STRIPE_LEN * k.StripesPerBlock() <= |input|
    requires Consumed(k, Block(k.init, 0), input, done) == Block(acc, 0)
    ensures Consumed(k, Block(k.init, 0), input, done + k.StripesPerBlock()) == Block(r, 0)
  {
    hide Consumed, Accumulated;
    r := FinishBlock(k, Block(acc, 0), input[from..]);
    ConsumedTwice(k, Block(k.init, 0), input, done, k.StripesPerBlock());
  }

  /** Block n of the whole blocks lies inside the input. */
  lemma BlockFits(len: nat, nb: nat, n: nat, done: nat)
    requires len > 0 && nb > 0 && n < WholeBlocks(len, STRIPE_LEN * nb) && done == Product(n, nb)
    ensures STRIPE_LEN * done + STRIPE_LEN * nb <= len && Product(n + 1, nb) == done + nb
  {
    var b := STRIPE_LEN * nb;
    var m := (len - 1) / b;
    AtLeastOnce(b, m - n);
    assert b * m == b * n + b * (m - n);
    assert b * n == STRIPE_LEN * (n * nb);
  }

  /** The whole blocks hold all but fewer than nb of the stripes. */
  lemma BlocksFit(len: nat, nb: nat, done: nat)
    requires len > 0 && nb > 0 && done == Product(WholeBlocks(len, STRIPE_LEN * nb), nb)
    ensures var from := STRIPE_LEN * done;
      from < len && done + (len - 1 - from) / STRIPE_LEN == StripesOf(len) && (len - 1 - from) / STRIPE_LEN < nb
  {
    var b := STRIPE_LEN * nb;
    var n, r := (len - 1) / b, (len - 1) % b;
    assert len - 1 == b * n + r;
    assert b * n == STRIPE_LEN * (n * nb);
    StripesLeft(len, done, r, nb);
  }

  lemma StripesLeft(len: nat, done: nat, r: nat, nb: nat)
    requires len - 1 == STRIPE_LEN * done + r && r < STRIPE_LEN * nb
    ensures done + r / STRIPE_LEN == StripesOf(len) && r / STRIPE_LEN < nb
  {
  }

  /** XXH3_64bits_internal */
  method OneShot<L, H>(k: Kernel<L, H>, input: seq<Byte>) returns (h: H)
    requires k.Ok()
    ensures h == Hash(k, input)
  {
    if |input| <= MIDSIZE_MAX {
      h := k.short(input);
    } else {
      h := HashLong(k, input);
    }
  }

  // ----- Streaming -----

  /** The rest of the current block, with its scramble. */
  method FinishBlock<L, H>(k: Kernel<L, H>, b: Block<L>, s: seq<Byte>) returns (acc: L)
    requires k.Ok() && b.stripes < k.StripesPerBlock() && STRIPE_LEN * (k.StripesPerBlock() - b.stripes) <= |s|
    ensures Consumed(k, b, s, k.StripesPerBlock() - b.stripes) == Block(acc, 0)
  {
    var n := k.StripesPerBlock() - b.stripes;
    WholeBlock(k, b, s, n);
    acc := Accumulate(k, b.acc, s, SECRET_CONSUME_RATE * b.stripes, n);
    acc := k.scramble(acc, k.SecretLimit());
  }

  /** XXH3_consumeStripes: like the one-shot loop, but it may begin and end inside a block. */
  method ConsumeStripes<L, H>(k: Kernel<L, H>, b: Block<L>, input: seq<Byte>, nbStripes: nat) returns (r: Block<L>)
    requires k.Ok() && b.stripes < k.StripesPerBlock() && STRIPE_LEN * nbStripes <= |input|
    ensures r == Consumed(k, b, input, nbStripes) && r.stripes < k.StripesPerBlock()
  {
    hide Consumed, Accumulated;
    var nb := k.StripesPerBlock();
    r := b;
    var done := 0;
    if nbStripes >= nb - b.stripes {
      var acc := FinishBlock(k, b, input);
      done := nb - b.stripes;
      while nbStripes - done >= nb
        invariant done <= nbStripes && Consumed(k, b, input, done) == Block(acc, 0)
        decreases nbStripes - done
      {
        ConsumedTwice(k, b, input, done, nb);
        acc := FinishBlock(k, Block(acc, 0), input[STRIPE_LEN * done..]);
        done := done + nb;
      }
      r := Block(acc, 0);
    } else {
      ConsumedNone(k, b, input);
    }
    if nbStripes > done {
      InsideBlock(k, r, input[STRIPE_LEN * done..], nbStripes - done);
      ConsumedTwice(k, b, input, done, nbStripes - done);
      var acc := Accumulate(k, r.acc, input[STRIPE_LEN * done..], SECRET_CONSUME_RATE * r.stripes, nbStripes - done);
      r := Block(acc, r.stripes + (nbStripes - done));
    }
  }

  lemma ConsumedNone<L, H>(k: Kernel<L, H>, b: Block<L>, s: seq<Byte>)
    requires k.Ok()
    ensures Consumed(k, b, s, 0) == b
  {
  }

  /** The state after the first c stripes of `data`. */
  ghost predicate Reached<L, H>(k: Kernel<L, H>, data: seq<Byte>, c: nat, b: Block<L>) {
    && k.Ok() && STRIPE_LEN * c <= |data|
    && Consumed(k, Block(k.init, 0), data, c) == b && b.stripes < k.StripesPerBlock()
  }

  /** Behind the buffered bytes: the last stripe consumed. */
  ghost predicate LastKept(buffer: seq<Byte>, data: seq<Byte>, c: nat) {
    c > 0 ==> (
      && |buffer| == INTERNALBUFFER_SIZE && STRIPE_LEN * c <= |data|
      && buffer[INTERNALBUFFER_SIZE - STRIPE_LEN..] == data[STRIPE_LEN * (c - 1)..STRIPE_LEN * c])
  }

  /** Consumed stripes and buffered bytes make up the data; at least one byte is buffered, and the
      last stripe consumed stays behind the buffered bytes as long as it may still be needed. */
  ghost predicate Tracks<L, H>(k: Kernel<L, H>, data: seq<Byte>, c: nat, b: Block<L>, buffer: seq<Byte>, n: nat)
    requires n <= |buffer|
  {
    && Reached(k, data, c, b)
    && data[STRIPE_LEN * c..] == buffer[..n]
    && (c > 0 ==> |data| > INTERNALBUFFER_SIZE && n > 0)
    && (n <= INTERNALBUFFER_SIZE - STRIPE_LEN ==> LastKept(buffer, data, c))
  }

  /** n more stripes, read from s. */
  lemma ReachedFurther<L, H>(k: Kernel<L, H>, data: seq<Byte>, c: nat, b: Block<L>, s: seq<Byte>, n: nat)
    requires Reached(k, data, c, b) && STRIPE_LEN * n <= |s|
    requires STRIPE_LEN * c + |s| <= |data| && s == data[STRIPE_LEN * c..STRIPE_LEN * c + |s|]
    ensures STRIPE_LEN * (c + n) <= |data|
    ensures Consumed(k, Block(k.init, 0), data, c + n) == Consumed(k, b, s, n)
  {
    var start := Block(k.init, 0);
    var t := data[STRIPE_LEN * c..];
    assert t[..STRIPE_LEN * n] == s[..STRIPE_LEN * n];
    SameStripes(k, b, t, s, n);
    ConsumedTwice(k, start, data, c, n);
  }

  /** More data does not change what was reached. */
  lemma ReachedStays<L, H>(k: Kernel<L, H>, data: seq<Byte>, more: seq<Byte>, c: nat, b: Block<L>)
    requires Reached(k, data, c, b)
    ensures Reached(k, data + more, c, b)
  {
    assert (data + more)[..STRIPE_LEN * c] == data[..STRIPE_LEN * c];
    SameStripes(k, Block(k.init, 0), data, data + more, c);
  }

  /** Some input goes behind the buffered bytes. */
  lemma TracksMore<L, H>(k: Kernel<L, H>, data: seq<Byte>, c: nat, b: Block<L>, buffer: seq<Byte>, n: nat,
      input: seq<Byte>)
    requires n + |input| <= |buffer| == INTERNALBUFFER_SIZE && Tracks(k, data, c, b, buffer, n)
    ensures Tracks(k, data + input, c, b, buffer[..n] + input + buffer[n + |input|..], n + |input|)
  {
    hide Consumed;
    ReachedStays(k, data, input, c, b);
    var buffer', n', last := buffer[..n] + input + buffer[n + |input|..], n + |input|, INTERNALBUFFER_SIZE - STRIPE_LEN;
    assert buffer'[..n'] == buffer[..n] + input == (data + input)[STRIPE_LEN * c..];
    if n' <= last && c > 0 {
      assert buffer'[last..] == buffer[last..];
    }
  }

  /** XXH3_state_t under a fixed secret. */
  class State<L, H> {
    const k: Kernel<L, H>
    const buffer: array<Byte>
    var acc: L
    var bufferedSize: nat
    var nbStripesSoFar: nat
    var totalLen: nat

    /** Everything hashed so far, and how many of its stripes were consumed. */
    ghost var data: seq<Byte>
    ghost var consumed: nat

    ghost predicate Valid()
      reads this, buffer
    {
      && bufferedSize <= INTERNALBUFFER_SIZE == buffer.Length
      && totalLen == |data| % TWO_TO_THE_64
      && Tracks(k, data, consumed, Block(acc, nbStripesSoFar), buffer[..], bufferedSize)
    }

    /** XXH3_64bits_reset */
    constructor (k: Kernel<L, H>)
      requires k.Ok()
      ensures Valid() && data == [] && this.k == k && fresh(buffer)
    {
      this.k := k;
      buffer := new Byte[INTERNALBUFFER_SIZE](_ => 0);
      acc, bufferedSize, nbStripesSoFar, totalLen := k.init, 0, 0, 0;
      data, consumed := [], 0;
    }

    /** XXH3_update */
    method Update(input: seq<Byte>)
      requires Valid()
      modifies this, buffer
      ensures Valid() && data == old(data) + input
    {
      hide Reached, LastKept, Tracks;
      totalLen := (totalLen + |input|) % TWO_TO_THE_64;
      ghost var whole := data + input;
      if |input| <= INTERNALBUFFER_SIZE - bufferedSize {
        Append(input);
      } else {
        var rest := input;
        if bufferedSize > 0 {
          rest := Complete(input);
        } else {
          NothingYet(input);
        }
        if |rest| > INTERNALBUFFER_SIZE {
          rest := Bulk(whole, rest);
        }
        Buffer(whole, rest);
      }
      data := whole;
    }

    /** The input still fits into the buffer. */
    method Append(input: seq<Byte>)
      requires bufferedSize <= INTERNALBUFFER_SIZE == buffer.Length && |input| <= INTERNALBUFFER_SIZE - bufferedSize
      requires Tracks(k, data, consumed, Block(acc, nbStripesSoFar), buffer[..], bufferedSize)
      modifies this`bufferedSize, buffer
      ensures bufferedSize == old(bufferedSize) + |input|
      ensures Tracks(k, data + input, consumed, Block(acc, nbStripesSoFar), buffer[..], bufferedSize)
    {
      hide Tracks;
      TracksMore(k, data, consumed, Block(acc, nbStripesSoFar), buffer[..], bufferedSize, input);
      CopyIn(buffer, bufferedSize, input);
      bufferedSize := bufferedSize + |input|;
    }

    /** Before anything was buffered there is nothing consumed. */
    lemma NothingYet(input: seq<Byte>)
      requires bufferedSize <= INTERNALBUFFER_SIZE == buffer.Length && bufferedSize == 0
      requires Tracks(k, data, consumed, Block(acc, nbStripesSoFar), buffer[..], bufferedSize)
      ensures Rest(data + input, input)
    {
    }

    /** All of `whole` but `rest` is consumed, and the stripe before `rest` is kept if there is one. */
    ghost predicate Rest(whole: seq<Byte>, rest: seq<Byte>)
      reads this, buffer
    {
      && Reached(k, whole, consumed, Block(acc, nbStripesSoFar))
      && whole[STRIPE_LEN * consumed..] == rest
      && LastKept(buffer[..], whole, consumed)
    }

    /** Complete the buffer and consume it. */
    method Complete(input: seq<Byte>) returns (rest: seq<Byte>)
      requires 0 < bufferedSize <= INTERNALBUFFER_SIZE == buffer.Length && |input| > INTERNALBUFFER_SIZE - bufferedSize
      requires Tracks(k, data, consumed, Block(acc, nbStripesSoFar), buffer[..], bufferedSize)
      modifies this`acc, this`nbStripesSoFar, this`bufferedSize, this`consumed, buffer
      ensures Rest(data + input, rest) && rest != [] && bufferedSize == 0 && |data + input| > INTERNALBUFFER_SIZE
    {
      hide Consumed, LastKept;
      var loadSize := INTERNALBUFFER_SIZE - bufferedSize;
      rest := input[loadSize..];
      ghost var whole, c, b := data + input, consumed, Block(acc, nbStripesSoFar);
      ReachedStays(k, data, input, c, b);
      CopyIn(buffer, bufferedSize, input[..loadSize]);
      ghost var full := buffer[..];
      SliceJoined(data, input, STRIPE_LEN * c, loadSize);
      assert full == whole[STRIPE_LEN * c..STRIPE_LEN * c + INTERNALBUFFER_SIZE];
      var r := ConsumeStripes(k, Block(acc, nbStripesSoFar), buffer[..], INTERNALBUFFER_SIZE / STRIPE_LEN);
      ReachedFurther(k, whole, c, b, full, 4);
      acc, nbStripesSoFar, bufferedSize, consumed := r.acc, r.stripes, 0, consumed + 4;
      FullConsumed(whole, c, full);
    }

    lemma FullConsumed(whole: seq<Byte>, c: nat, full: seq<Byte>)
      requires STRIPE_LEN * c + INTERNALBUFFER_SIZE <= |whole|
      requires full == whole[STRIPE_LEN * c..STRIPE_LEN * c + INTERNALBUFFER_SIZE]
      ensures LastKept(full, whole, c + 4)
    {
      SliceTail(whole, STRIPE_LEN * c, INTERNALBUFFER_SIZE, INTERNALBUFFER_SIZE - STRIPE_LEN);
    }

    lemma SliceJoined(s: seq<Byte>, t: seq<Byte>, from: nat, n: nat)
      requires from <= |s| && n <= |t|
      ensures s[from..] + t[..n] == (s + t)[from..|s| + n] && (s + t)[|s| + n..] == t[n..]
    {
    }

    lemma SliceTail(s: seq<Byte>, from: nat, n: nat, m: nat)
      requires m <= n && from + n <= |s|
      ensures s[from..from + n][m..] == s[from + m..from + n]
    {
    }

    lemma SliceInside(s: seq<Byte>, from: nat, m: nat, n: nat)
      requires m <= n && from + n <= |s|
      ensures s[from..][m..n] == s[from + m..from + n] && s[from..][n..] == s[from + n..]
    {
    }

    /** Consume from the input directly and keep its last consumed stripe. */
    method Bulk(ghost whole: seq<Byte>, input: seq<Byte>) returns (rest: seq<Byte>)
      requires buffer.Length == INTERNALBUFFER_SIZE < |input| && Rest(whole, input)
      modifies this`acc, this`nbStripesSoFar, this`consumed, buffer
      ensures Rest(whole, rest) && 0 < |rest| <= STRIPE_LEN
    {
      hide Consumed;
      var nbStripes := (|input| - 1) / STRIPE_LEN;
      ghost var c, b := consumed, Block(acc, nbStripesSoFar);
      var r := ConsumeStripes(k, Block(acc, nbStripesSoFar), input, nbStripes);
      ReachedFurther(k, whole, c, b, input, nbStripes);
      acc, nbStripesSoFar, consumed := r.acc, r.stripes, consumed + nbStripes;
      rest := input[STRIPE_LEN * nbStripes..];
      var last := input[STRIPE_LEN * (nbStripes - 1)..STRIPE_LEN * nbStripes];
      CopyIn(buffer, INTERNALBUFFER_SIZE - STRIPE_LEN, last);
      assert buffer[..][INTERNALBUFFER_SIZE - STRIPE_LEN..] == last;
      SliceInside(whole, STRIPE_LEN * c, STRIPE_LEN * (nbStripes - 1), STRIPE_LEN * nbStripes);
      assert last == whole[STRIPE_LEN * (consumed - 1)..STRIPE_LEN * consumed];
      assert rest == whole[STRIPE_LEN * consumed..];
    }

    /** Some remaining input, always. */
    method Buffer(ghost whole: seq<Byte>, rest: seq<Byte>)
      requires 0 < |rest| <= INTERNALBUFFER_SIZE == buffer.Length && Rest(whole, rest) && |whole| > INTERNALBUFFER_SIZE
      modifies this`bufferedSize, buffer
      ensures bufferedSize <= INTERNALBUFFER_SIZE
      ensures Tracks(k, whole, consumed, Block(acc, nbStripesSoFar), buffer[..], bufferedSize)
    {
      hide Consumed;
      CopyIn(buffer, 0, rest);
      bufferedSize := |rest|;
    }

    /** XXH3_digest_long: on a local copy; the last stripe may begin before the buffered bytes. */
    method DigestLong() returns (r: L)
      requires Valid() && |data| > MIDSIZE_MAX
      ensures r == WithLastStripe(k, Consumed(k, Block(k.init, 0), data, StripesOf(|data|)).acc,
        data[|data| - STRIPE_LEN..])
    {
      hide Consumed, Tracks, StripesOf;
      ghost var b := Block(acc, nbStripesSoFar);
      BufferedStripes(k, data, consumed, b, buffer[..], bufferedSize);
      LastStripe(k, data, consumed, b, buffer[..], bufferedSize);
      r := acc;
      var lastStripe;
      if bufferedSize >= STRIPE_LEN {
        var nbStripes := (bufferedSize - 1) / STRIPE_LEN;
        var b' := ConsumeStripes(k, Block(r, nbStripesSoFar), buffer[..bufferedSize], nbStripes);
        r := b'.acc;
        lastStripe := buffer[bufferedSize - STRIPE_LEN..bufferedSize];
      } else {
        var catchupSize := STRIPE_LEN - bufferedSize;
        lastStripe := buffer[INTERNALBUFFER_SIZE - catchupSize..] + buffer[..bufferedSize];
      }
      r := k.accumulate512(r, lastStripe, k.SecretLimit() - SECRET_LASTACC_START);
    }

    /** XXH3_64bits_digest: the one-shot hash of everything hashed so far, however it was cut. */
    method Digest() returns (h: H)
      requires Valid()
      ensures |data| < TWO_TO_THE_64 ==> h == Hash(k, data)
    {
      hide Consumed;
      if totalLen > MIDSIZE_MAX {
        var r := DigestLong();
        h := k.merge(r, totalLen);
      } else {
        h := k.short(buffer[..totalLen]);
      }
    }
  }

  /** For every input and every way of cutting it into updates, the streaming digest is the one-shot hash. */
  method HashChunks<L, H>(k: Kernel<L, H>, chunks: seq<seq<Byte>>) returns (h: H)
    requires k.Ok() && |Concat(chunks)| < TWO_TO_THE_64
    ensures h == Hash(k, Concat(chunks))
  {
    hide Consumed, Hash;
    var state := new State(k);
    for i := 0 to |chunks|
      invariant state.Valid() && state.k == k && state.data == Concat(chunks[..i]) && fresh(state)
        && fresh(state.buffer)
    {
      state.Update(chunks[i]);
      ConcatNext(chunks, i);
    }
    assert chunks[..|chunks|] == chunks;
    h := state.Digest();
  }

  /** The stripes still to be consumed stand in the buffer, if there are any. */
  lemma BufferedStripes<L, H>(k: Kernel<L, H>, data: seq<Byte>, c: nat, b: Block<L>, buffer: seq<Byte>, n: nat)
    requires n <= |buffer| == INTERNALBUFFER_SIZE && Tracks(k, data, c, b, buffer, n) && |data| > MIDSIZE_MAX
    ensures k.Ok() && b.stripes < k.StripesPerBlock()
    ensures n >= STRIPE_LEN ==>
      Consumed(k, Block(k.init, 0), data, StripesOf(|data|)) == Consumed(k, b, buffer[..n], (n - 1) / STRIPE_LEN)
    ensures n < STRIPE_LEN ==> Consumed(k, Block(k.init, 0), data, StripesOf(|data|)) == b
  {
    hide Consumed, LastKept, StripesOf;
    var rest := data[STRIPE_LEN * c..];
    assert |data| == STRIPE_LEN * c + |rest| && |rest| == n;
    StripesBehind(c, n);
    if n >= STRIPE_LEN {
      assert rest == data[STRIPE_LEN * c..STRIPE_LEN * c + n];
      ReachedFurther(k, data, c, b, rest, (n - 1) / STRIPE_LEN);
    }
  }

  lemma StripesBehind(c: nat, n: nat)
    requires n > 0
    ensures StripesOf(STRIPE_LEN * c + n) == c + (n - 1) / STRIPE_LEN
    ensures n < STRIPE_LEN ==> (n - 1) / STRIPE_LEN == 0
  {
  }

  /** The last 64 bytes of the data, taken from the buffer. */
  lemma LastStripe<L, H>(k: Kernel<L, H>, data: seq<Byte>, c: nat, b: Block<L>, buffer: seq<Byte>, n: nat)
    requires n <= |buffer| == INTERNALBUFFER_SIZE && Tracks(k, data, c, b, buffer, n) && |data| > MIDSIZE_MAX
    ensures n >= STRIPE_LEN ==> buffer[n - STRIPE_LEN..n] == data[|data| - STRIPE_LEN..]
    ensures n < STRIPE_LEN ==>
      buffer[INTERNALBUFFER_SIZE - (STRIPE_LEN - n)..] + buffer[..n]
      == data[|data| - STRIPE_LEN..]
  {
    hide Consumed;
    assert |data| == STRIPE_LEN * c + n;
    var kept := buffer[INTERNALBUFFER_SIZE - STRIPE_LEN..];
    if n < STRIPE_LEN {
      assert buffer[INTERNALBUFFER_SIZE - (STRIPE_LEN - n)..] == kept[n..];
    }
  }
}
