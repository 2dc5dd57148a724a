/** Which calls of its arithmetic XXH3 makes, in which order and on which bytes: a run on a kernel whose lanes are the
    list of the calls made so far. */
module Xxh3Calls {
  import opened Chunks
  import opened Memory
  import opened Remainders
  import opened Xxh3

  datatype Call = Accumulate512(stripe: seq<Byte>, secret: nat) | Scramble(secret: nat)

  datatype Log = ShortInput(data: seq<Byte>) | LongInput(calls: seq<Call>, len: nat)

  function Recorder(secretSize: nat): Kernel<seq<Call>, Log> {
    Kernel([], (calls, stripe, secret) => calls + [Accumulate512(stripe, secret)],
      (calls, secret) => calls + [Scramble(secret)], (calls, len) => LongInput(calls, len), data => ShortInput(data),
      secretSize)
  }

  /** Where the scramble behind block j stands in the list. */
  ghost function Place(j: nat, nb: nat): nat {
    (j + 1) * nb + j
  }

  ghost function Quot(n: nat, nb: nat): nat
    requires nb > 0
  {
    n / nb
  }

  ghost function Rem(n: nat, nb: nat): nat
    requires nb > 0
  {
    n % nb
  }

  /** The calls for the first n stripes: stripe i is bytes 64 i to 64 i + 64 under the secret from 8 (i mod nb) on, and
      a scramble with the end of the secret follows every nb-th one. */
  ghost predicate StripeCalls(data: seq<Byte>, nb: nat, limit: nat, n: nat, calls: seq<Call>)
    requires nb > 0 && 64 * n <= |data|
  {
    && |calls| >= n + Quot(n, nb)
    && (forall i: nat :: i < n ==> StripeCall(data, nb, i, calls))
    && (forall j: nat :: j < Quot(n, nb) ==> Place(j, nb) < |calls| && calls[Place(j, nb)] == Scramble(limit))
  }

  ghost predicate StripeCall(data: seq<Byte>, nb: nat, i: nat, calls: seq<Call>)
    requires nb > 0 && 64 * (i + 1) <= |data|
  {
    && i + Quot(i, nb) < |calls|
    && calls[i + Quot(i, nb)] == Accumulate512(data[64 * i..64 * i + 64], 8 * Rem(i, nb))
  }

  /** Up to 240 bytes the input is hashed in one call. Otherwise all bytes but the last 1 to 64 are consumed stripe by
      stripe, the last 64 bytes follow under the secret 7 bytes before its last 64, and the length is merged in. */
  ghost predicate Recorded(data: seq<Byte>, secretSize: nat, log: Log)
    requires secretSize >= 136
  {
    if |data| <= 240 then log == ShortInput(data)
    else
      var nb, limit, n := (secretSize - 64) / 8, secretSize - 64, (|data| - 1) / 64;
      && log.LongInput? && log.len == |data| && |log.calls| == n + n / nb + 1
      && (forall i: nat :: i < n ==> StripeCall(data, nb, i, log.calls))
      && (forall j: nat :: j < n / nb ==>
        Place(j, nb) < |log.calls| && log.calls[Place(j, nb)] == Scramble(limit))
      && log.calls[n + n / nb] == Accumulate512(data[|data| - 64..], limit - 7)
  }

  // ----- The calls of the reference -----

  lemma QuotNext(n: nat, nb: nat)
    requires nb > 0
    ensures Rem(n, nb) + 1 == nb ==>
      Quot(n + 1, nb) == Quot(n, nb) + 1 && Rem(n + 1, nb) == 0 && Place(Quot(n, nb), nb) == n + 1 + Quot(n, nb)
    ensures Rem(n, nb) + 1 != nb ==> Quot(n + 1, nb) == Quot(n, nb) && Rem(n + 1, nb) == Rem(n, nb) + 1
  {
    var q, r := n / nb, n % nb;
    assert n == nb * q + r;
    if r + 1 == nb {
      assert n + 1 == nb * (q + 1);
      RemainderUnique(n + 1, nb, q + 1, 0);
    } else {
      RemainderUnique(n + 1, nb, q, r + 1);
    }
  }

  lemma QuotNone(nb: nat)
    requires nb > 0
    ensures Quot(0, nb) == 0 && Rem(0, nb) == 0
  {
  }

  lemma CallsKept(data: seq<Byte>, nb: nat, limit: nat, n: nat, calls: seq<Call>, more: seq<Call>)
    requires nb > 0 && 64 * n <= |data| && StripeCalls(data, nb, limit, n, calls)
    ensures StripeCalls(data, nb, limit, n, calls + more)
  {
    hide Quot, Rem, Place;
    forall i: nat | i < n ensures StripeCall(data, nb, i, calls + more) {
      assert StripeCall(data, nb, i, calls);
    }
  }

  /** One more stripe, and its scramble. */
  lemma CallsNext(data: seq<Byte>, nb: nat, limit: nat, n: nat, calls: seq<Call>)
    requires nb > 0 && 64 * (n + 1) <= |data| && StripeCalls(data, nb, limit, n, calls)
    requires |calls| == n + Quot(n, nb)
    ensures var next := calls + [Accumulate512(data[64 * n..64 * n + 64], 8 * Rem(n, nb))];
      if Rem(n, nb) + 1 == nb then
        StripeCalls(data, nb, limit, n + 1, next + [Scramble(limit)]) && |next| + 1 == n + 1 + Quot(n + 1, nb)
      else StripeCalls(data, nb, limit, n + 1, next) && |next| == n + 1 + Quot(n + 1, nb)
  {
    hide Quot, Rem, Place;
    var next := calls + [Accumulate512(data[64 * n..64 * n + 64], 8 * Rem(n, nb))];
    QuotNext(n, nb);
    CallsKept(data, nb, limit, n, calls, [Accumulate512(data[64 * n..64 * n + 64], 8 * Rem(n, nb))]);
    assert StripeCall(data, nb, n, next);
    if Rem(n, nb) + 1 == nb {
      CallsKept(data, nb, limit, n, next, [Scramble(limit)]);
      assert StripeCall(data, nb, n, next + [Scramble(limit)]);
    }
  }

  /** Consuming n stripes makes the calls for n stripes. */
  lemma {:induction false} ConsumedCalls(data: seq<Byte>, secretSize: nat, n: nat)
    requires secretSize >= 136 && 64 * n <= |data|
    ensures var nb, b := (secretSize - 64) / 8, Consumed(Recorder(secretSize), Block([], 0), data, n);
      nb > 0 && b.stripes == Rem(n, nb) && |b.acc| == n + Quot(n, nb)
      && StripeCalls(data, nb, secretSize - 64, n, b.acc)
  {
    var k, nb := Recorder(secretSize), (secretSize - 64) / 8;
    assert k.Ok() && k.StripesPerBlock() == nb;
    if n == 0 {
      QuotNone(nb);
    } else {
      hide Quot, Rem, Place, StripeCalls;
      ConsumedCalls(data, secretSize, n - 1);
      var b := Consumed(k, Block([], 0), data, n - 1);
      assert data[64 * (n - 1)..64 * n] == data[64 * (n - 1)..64 * (n - 1) + 64];
      CallsNext(data, nb, secretSize - 64, n - 1, b.acc);
      QuotNext(n - 1, nb);
    }
  }

  lemma HashRecorded(data: seq<Byte>, secretSize: nat)
    requires secretSize >= 136
    ensures Recorded(data, secretSize, Hash(Recorder(secretSize), data))
  {
    hide Consumed;
    if |data| > 240 {
      var n, nb, k := (|data| - 1) / 64, (secretSize - 64) / 8, Recorder(secretSize);
      ConsumedCalls(data, secretSize, n);
      var b := Consumed(k, Block([], 0), data, n);
      CallsKept(data, nb, secretSize - 64, n, b.acc, [Accumulate512(data[|data| - 64..], secretSize - 64 - 7)]);
    }
  }

  // ----- The calls made -----

  /** The one-shot code. */
  method OneShotCalls(input: seq<Byte>, secretSize: nat) returns (log: Log)
    requires secretSize >= 136
    ensures Recorded(input, secretSize, log)
  {
    hide Hash, Recorded;
    log := OneShot(Recorder(secretSize), input);
    HashRecorded(input, secretSize);
  }

  /** The streaming code, however the input is cut. */
  method ChunksCalls(chunks: seq<seq<Byte>>, secretSize: nat) returns (log: Log)
    requires secretSize >= 136 && |Concat(chunks)| < 0x1_0000_0000_0000_0000
    ensures Recorded(Concat(chunks), secretSize, log)
  {
    hide Hash, Recorded;
    log := HashChunks(Recorder(secretSize), chunks);
    HashRecorded(Concat(chunks), secretSize);
  }

  // ----- What they mean for any arithmetic -----

  /** Making the recorded calls with a kernel. */
  function Replay<L, H>(k: Kernel<L, H>, log: Log): H {
    match log
    case ShortInput(data) => k.short(data)
    case LongInput(calls, len) => k.merge(ReplayCalls(k, calls), len)
  }

  function ReplayCalls<L, H>(k: Kernel<L, H>, calls: seq<Call>): L {
    if calls == [] then k.init
    else
      var acc := ReplayCalls(k, calls[..|calls| - 1]);
      match calls[|calls| - 1]
      case Accumulate512(stripe, secret) => k.accumulate512(acc, stripe, secret)
      case Scramble(secret) => k.scramble(acc, secret)
  }

  lemma ReplayNext<L, H>(k: Kernel<L, H>, calls: seq<Call>, call: Call)
    ensures ReplayCalls(k, calls + [call]) == match call
      case Accumulate512(stripe, secret) => k.accumulate512(ReplayCalls(k, calls), stripe, secret)
      case Scramble(secret) => k.scramble(ReplayCalls(k, calls), secret)
  {
    assert (calls + [call])[..|calls|] == calls;
  }

  lemma {:induction false} ConsumedReplays<L, H>(k: Kernel<L, H>, data: seq<Byte>, n: nat)
    requires k.Ok() && 64 * n <= |data|
    ensures var b, r := Consumed(k, Block(k.init, 0), data, n), Consumed(Recorder(k.secretSize), Block([], 0), data, n);
      b.stripes == r.stripes && b.acc == ReplayCalls(k, r.acc)
  {
    if n > 0 {
      hide ReplayCalls;
      ConsumedReplays(k, data, n - 1);
      var r := Consumed(Recorder(k.secretSize), Block([], 0), data, n - 1);
      var stripe := data[64 * (n - 1)..64 * n];
      ReplayNext(k, r.acc, Accumulate512(stripe, 8 * r.stripes));
      ReplayNext(k, r.acc + [Accumulate512(stripe, 8 * r.stripes)], Scramble(k.SecretLimit()));
    }
  }

  /** Whatever the arithmetic is, the hash is what the recorded calls give with it. */
  lemma HashReplays<L, H>(k: Kernel<L, H>, data: seq<Byte>)
    requires k.Ok()
    ensures Hash(k, data) == Replay(k, Hash(Recorder(k.secretSize), data))
  {
    hide Consumed, ReplayCalls;
    if |data| > 240 {
      var n := (|data| - 1) / 64;
      ConsumedReplays(k, data, n);
      var r := Consumed(Recorder(k.secretSize), Block([], 0), data, n);
      ReplayNext(k, r.acc, Accumulate512(data[|data| - 64..], k.SecretLimit() - 7));
    }
  }
}
