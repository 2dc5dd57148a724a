/** Little-endian cells of 1, 2 or 4 bytes in one byte buffer. */
module Memory {
  import opened Remainders

  type Byte = b: nat | b < 256

  predicate IsWidth(w: nat) {
    w == 1 || w == 2 || w == 4
  }

  /** The bytes that n cells of width w take. */
  function Span(w: nat, n: nat): nat
    requires IsWidth(w)
  {
    if w == 1 then n else if w == 2 then 2 * n else 4 * n
  }

  lemma SpanStep(w: nat, k: nat)
    requires IsWidth(w)
    ensures Span(w, k + 1) == Span(w, k) + w
  {
  }

  lemma SpanSum(w: nat, j: nat, k: nat)
    requires IsWidth(w)
    ensures Span(w, j + k) == Span(w, j) + Span(w, k)
  {
  }

  lemma SpanMono(w: nat, j: nat, k: nat)
    requires IsWidth(w) && j <= k
    ensures Span(w, j) <= Span(w, k)
  {
  }

  lemma SpanWider(w: nat, w': nat, k: nat)
    requires IsWidth(w) && IsWidth(w') && w <= w'
    ensures Span(w, k) <= Span(w', k)
  {
  }

  /** The values a cell can hold. */
  function CellLimit(w: nat): nat
    requires IsWidth(w)
  {
    if w == 1 then 0x100 else if w == 2 then 0x1_0000 else 0x1_0000_0000
  }

  function Join2(b0: nat, b1: nat): nat {
    b0 + 0x100 * b1
  }

  function Join4(b0: nat, b1: nat, b2: nat, b3: nat): nat {
    b0 + 0x100 * b1 + 0x1_0000 * b2 + 0x100_0000 * b3
  }

  function Load(m: seq<Byte>, at: nat, w: nat): (v: nat)
    requires IsWidth(w) && at + w <= |m|
    ensures v < CellLimit(w)
  {
    if w == 1 then m[at]
    else if w == 2 then Join2(m[at], m[at + 1])
    else Join4(m[at], m[at + 1], m[at + 2], m[at + 3])
  }

  method Store(mem: array<Byte>, at: nat, w: nat, v: nat)
    requires IsWidth(w) && at + w <= mem.Length && v < CellLimit(w)
    modifies mem
    ensures Load(mem[..], at, w) == v
    ensures SameOutside(old(mem[..]), mem[..], at, at + w)
  {
    var high := v / 0x100;
    mem[at] := v % 0x100;
    if w >= 2 {
      mem[at + 1] := high % 0x100;
    }
    if w == 4 {
      high := high / 0x100;
      mem[at + 2] := high % 0x100;
      mem[at + 3] := high / 0x100;
    }
  }

  lemma JoinUnique(a0: Byte, a1: Byte, a2: Byte, a3: Byte, b0: Byte, b1: Byte, b2: Byte, b3: Byte)
    requires Join4(a0, a1, a2, a3) == Join4(b0, b1, b2, b3)
    ensures a0 == b0 && a1 == b1 && a2 == b2 && a3 == b3
  {
    LowByte(a0, a1 + 0x100 * a2 + 0x1_0000 * a3, b0, b1 + 0x100 * b2 + 0x1_0000 * b3);
    LowByte(a1, a2 + 0x100 * a3, b1, b2 + 0x100 * b3);
    LowByte(a2, a3, b2, b3);
  }

  lemma LowByte(a: Byte, x: nat, b: Byte, y: nat)
    requires a + 0x100 * x == b + 0x100 * y
    ensures a == b && x == y
  {
  }

  /** A load determines its bytes. */
  lemma LoadedBytes(a: seq<Byte>, b: seq<Byte>, at: nat, w: nat)
    requires IsWidth(w) && at + w <= |a| && at + w <= |b| && Load(a, at, w) == Load(b, at, w)
    ensures a[at] == b[at] && (w >= 2 ==> a[at + 1] == b[at + 1])
    ensures w == 4 ==> a[at + 2] == b[at + 2] && a[at + 3] == b[at + 3]
  {
    if w == 2 {
      LowByte(a[at], a[at + 1], b[at], b[at + 1]);
    } else if w == 4 {
      JoinUnique(a[at], a[at + 1], a[at + 2], a[at + 3], b[at], b[at + 1], b[at + 2], b[at + 3]);
    }
  }

  /** A load only depends on its own bytes. */
  lemma LoadLocal(m: seq<Byte>, m': seq<Byte>, at: nat, w: nat)
    requires IsWidth(w) && at + w <= |m| && at + w <= |m'|
    requires forall b :: at <= b < at + w ==> m[b] == m'[b]
    ensures Load(m, at, w) == Load(m', at, w)
  {
  }

  /** m' is m with other bytes in [from, to) only. */
  ghost predicate SameOutside(m: seq<Byte>, m': seq<Byte>, from: nat, to: nat) {
    |m'| == |m| && forall b :: 0 <= b < |m| && (b < from || to <= b) ==> m'[b] == m[b]
  }

  /** m' is m with the units stored as consecutive cells. */
  ghost predicate StoredAt(m: seq<Byte>, m': seq<Byte>, at: nat, w: nat, units: seq<nat>)
    requires IsWidth(w)
  {
    && at + Span(w, |units|) <= |m|
    && SameOutside(m, m', at, at + Span(w, |units|))
    && forall j: nat :: j < |units| ==> Load(m', at + Span(w, j), w) == units[j]
  }

  /** Store the units as consecutive cells. */
  method StoreAll(mem: array<Byte>, at: nat, w: nat, units: seq<nat>)
    requires IsWidth(w) && at + Span(w, |units|) <= mem.Length
    requires forall i :: 0 <= i < |units| ==> units[i] < CellLimit(w)
    modifies mem
    ensures StoredAt(old(mem[..]), mem[..], at, w, units)
  {
    ghost var m := mem[..];
    var k := 0;
    while k < |units|
      invariant k <= |units|
      invariant SameOutside(m, mem[..], at, at + Span(w, k))
      invariant forall j: nat :: j < k ==> Load(mem[..], at + Span(w, j), w) == units[j]
    {
      ghost var before := mem[..];
      Store(mem, at + Span(w, k), w, units[k]);
      forall j: nat | j < k ensures Load(mem[..], at + Span(w, j), w) == units[j] {
        LoadLocal(before, mem[..], at + Span(w, j), w);
      }
      k := k + 1;
    }
  }

  /** The text stands at `at`; nothing outside the `room` bytes from there has changed. */
  ghost predicate Wrote(m: seq<Byte>, m': seq<Byte>, at: nat, text: seq<nat>, room: nat) {
    && |text| <= room && at + room <= |m| && SameOutside(m, m', at, at + room)
    && m'[at..at + |text|] == text
  }

  /** The last cells, from the k-th on, are widened; all bytes before them are as they were. */
  ghost predicate Widened(m: seq<Byte>, m': seq<Byte>, src: nat, w: nat, dst: nat, w': nat, k: nat, n: nat)
    requires IsWidth(w) && IsWidth(w') && w <= w' && src <= dst && k <= n && dst + Span(w', n) <= |m|
  {
    && SameOutside(m, m', dst + Span(w', k), dst + Span(w', n))
    && forall j: nat :: k <= j < n ==> Load(m', dst + Span(w', j), w') == Load(m, src + Span(w, j), w)
  }

  /** A batch is read before it is stored: it covers no cell still to be read, and no cell widened so far. */
  lemma WidenBatch(m: seq<Byte>, m': seq<Byte>, m'': seq<Byte>, src: nat, w: nat, dst: nat, w': nat,
      k: nat, n: nat, units: seq<nat>)
    requires IsWidth(w) && IsWidth(w') && w <= w' && src <= dst && |units| <= k <= n && dst + Span(w', n) <= |m|
    requires Widened(m, m', src, w, dst, w', k, n)
    requires StoredAt(m', m'', dst + Span(w', k - |units|), w', units)
    requires src + Span(w, k) <= |m|
    requires CellsAt(m', src + Span(w, k - |units|), w, units)
    ensures Widened(m, m'', src, w, dst, w', k - |units|, n)
  {
    hide Load, StoredAt, CellsAt, Span;
    var k' := k - |units|;
    StoredBounds(m', m'', dst, w', k', units);
    BatchBounds(src, w, dst, w', k, n, |units|);
    forall j: nat | k' <= j < n ensures CellWidened(m, m'', src, w, dst, w', j) {
      CellInside(src, w, dst, w', j, n);
      if j < k {
        SpanSum(w', k', j - k');
        SpanSum(w, k', j - k');
        StoredCell(m', m'', dst + Span(w', k'), w', units, j - k');
        CellRead(m', src + Span(w, k'), w, units, j - k');
        NotYetCovered(m, m', src, w, dst, w', j, k, n);
      } else {
        StillWidened(m, m', m'', src, w, dst, w', k', k, n, j);
      }
    }
    AllWidened(m, m', m'', src, w, dst, w', k', k, n);
  }

  lemma CellInside(src: nat, w: nat, dst: nat, w': nat, j: nat, n: nat)
    requires IsWidth(w) && IsWidth(w') && w <= w' && src <= dst && j < n
    ensures src + Span(w, j) + w <= dst + Span(w', n) && dst + Span(w', j) + w' <= dst + Span(w', n)
  {
  }

  ghost predicate CellWidened(m: seq<Byte>, m': seq<Byte>, src: nat, w: nat, dst: nat, w': nat, j: nat)
    requires IsWidth(w) && IsWidth(w')
  {
    && dst + Span(w', j) + w' <= |m'| && src + Span(w, j) + w <= |m|
    && Load(m', dst + Span(w', j), w') == Load(m, src + Span(w, j), w)
  }

  lemma AllWidened(m: seq<Byte>, m': seq<Byte>, m'': seq<Byte>, src: nat, w: nat, dst: nat, w': nat, k': nat, k: nat,
      n: nat)
    requires IsWidth(w) && IsWidth(w') && w <= w' && src <= dst && k' <= k <= n && dst + Span(w', n) <= |m|
    requires SameOutside(m, m', dst + Span(w', k), dst + Span(w', n))
    requires SameOutside(m', m'', dst + Span(w', k'), dst + Span(w', k))
    requires forall j: nat :: k' <= j < n ==> CellWidened(m, m'', src, w, dst, w', j)
    ensures Widened(m, m'', src, w, dst, w', k', n)
  {
    hide Load;
    forall j: nat | k' <= j < n ensures Load(m'', dst + Span(w', j), w') == Load(m, src + Span(w, j), w) {
      assert CellWidened(m, m'', src, w, dst, w', j);
    }
  }

  lemma CellRead(m: seq<Byte>, at: nat, w: nat, units: seq<nat>, j: nat)
    requires IsWidth(w) && at + Span(w, |units|) <= |m| && CellsAt(m, at, w, units) && j < |units|
    ensures at + Span(w, j) + w <= |m| && Load(m, at + Span(w, j), w) == units[j]
  {
  }

  ghost predicate CellsAt(m: seq<Byte>, at: nat, w: nat, units: seq<nat>)
    requires IsWidth(w) && at + Span(w, |units|) <= |m|
  {
    forall j: nat :: j < |units| ==> Load(m, at + Span(w, j), w) == units[j]
  }

  lemma StoredBounds(m: seq<Byte>, m': seq<Byte>, dst: nat, w: nat, k: nat, units: seq<nat>)
    requires IsWidth(w) && StoredAt(m, m', dst + Span(w, k), w, units)
    ensures SameOutside(m, m', dst + Span(w, k), dst + Span(w, k + |units|))
  {
    SpanSum(w, k, |units|);
  }

  lemma StoredCell(m: seq<Byte>, m': seq<Byte>, at: nat, w: nat, units: seq<nat>, j: nat)
    requires IsWidth(w) && StoredAt(m, m', at, w, units) && j < |units|
    ensures at + Span(w, j) + w <= |m'| && Load(m', at + Span(w, j), w) == units[j]
  {
  }

  /** A cell still to be read is before everything written so far. */
  lemma NotYetCovered(m: seq<Byte>, m': seq<Byte>, src: nat, w: nat, dst: nat, w': nat, j: nat, k: nat, n: nat)
    requires IsWidth(w) && IsWidth(w') && w <= w' && src <= dst && j < k <= n && dst + Span(w', n) <= |m|
    requires SameOutside(m, m', dst + Span(w', k), dst + Span(w', n))
    ensures Load(m', src + Span(w, j), w) == Load(m, src + Span(w, j), w)
  {
  }

  /** The cells written next are before every cell written so far. */
  lemma StillWidened(m: seq<Byte>, m': seq<Byte>, m'': seq<Byte>, src: nat, w: nat, dst: nat, w': nat,
      k': nat, k: nat, n: nat, j: nat)
    requires IsWidth(w) && IsWidth(w') && w <= w' && src <= dst && k' <= k <= j < n && dst + Span(w', n) <= |m| == |m'|
    requires Load(m', dst + Span(w', j), w') == Load(m, src + Span(w, j), w)
    requires SameOutside(m', m'', dst + Span(w', k'), dst + Span(w', k))
    ensures Load(m'', dst + Span(w', j), w') == Load(m, src + Span(w, j), w)
  {
  }

  /** The bytes of a vector register: SSE or NEON, AVX2, AVX-512. */
  type VectorBytes = v: nat | v == 16 || v == 32 || v == 64 witness 16

  /** long_back_cvt: widen n cells from `src` to `dst` of the same buffer, from the last one on. First the few
      behind the last aligned address, then whole vectors, four at a time while there are as many, then the
      rest. However far the two ranges overlap, and wherever the buffer lies, no cell is lost. */
  method BackConvert(mem: array<Byte>, src: nat, w: nat, dst: nat, w': nat, n: nat, vector: VectorBytes, address: nat)
    requires IsWidth(w) && IsWidth(w') && w <= w' && src <= dst
    requires dst + Span(w', n) <= mem.Length
    modifies mem
    ensures Widened(old(mem[..]), mem[..], src, w, dst, w', 0, n)
  {
    hide Widened, Span;
    ghost var m := mem[..];
    var batch := vector / w;
    var skew := (address + dst + Span(w', n)) % vector / w';
    if skew > n {
      skew := n;
    }
    WidenedNone(m, src, w, dst, w', n);
    var k := n;
    if skew > 0 {
      k := SmallBackConvert(mem, src, w, dst, w', k, n, skew, vector / w', m);
    }
    while k >= 4 * batch
      invariant 0 <= k <= n && mem.Length == |m|
      invariant Widened(m, mem[..], src, w, dst, w', k, n)
    {
      MoveBatch(mem, src, w, dst, w', k, n, batch, m);
      MoveBatch(mem, src, w, dst, w', k - batch, n, batch, m);
      MoveBatch(mem, src, w, dst, w', k - 2 * batch, n, batch, m);
      MoveBatch(mem, src, w, dst, w', k - 3 * batch, n, batch, m);
      k := k - 4 * batch;
    }
    while k >= batch
      invariant 0 <= k <= n && mem.Length == |m|
      invariant Widened(m, mem[..], src, w, dst, w', k, n)
    {
      MoveBatch(mem, src, w, dst, w', k, n, batch, m);
      k := k - batch;
    }
    if k > 0 {
      k := SmallBackConvert(mem, src, w, dst, w', k, n, k, batch, m);
    }
  }

  lemma WidenedNone(m: seq<Byte>, src: nat, w: nat, dst: nat, w': nat, n: nat)
    requires IsWidth(w) && IsWidth(w') && w <= w' && src <= dst && dst + Span(w', n) <= |m|
    ensures Widened(m, m, src, w, dst, w', n, n)
  {
  }

  /** __small_back_cvt: fewer than `max` cells, one piece for each bit of their number. */
  method SmallBackConvert(mem: array<Byte>, src: nat, w: nat, dst: nat, w': nat, k: nat, n: nat, count: nat, max: nat,
      ghost m: seq<Byte>) returns (left: nat)
    requires IsWidth(w) && IsWidth(w') && w <= w' && src <= dst && count <= k <= n && count < max
    requires dst + Span(w', n) <= mem.Length == |m| && Widened(m, mem[..], src, w, dst, w', k, n)
    modifies mem
    ensures left == k - count && Widened(m, mem[..], src, w, dst, w', left, n)
  {
    hide Widened, Span;
    left := k;
    var piece := 1;
    while piece < max
      invariant piece > 0 && left == k - count % piece
      invariant Widened(m, mem[..], src, w, dst, w', left, n)
      decreases max - piece
    {
      NextBit(count, piece);
      if count / piece % 2 == 1 {
        MoveBatch(mem, src, w, dst, w', left, n, piece, m);
        left := left - piece;
      }
      piece := 2 * piece;
    }
  }

  lemma NextBit(x: nat, p: nat)
    requires p > 0
    ensures x % (2 * p) == x % p + if x / p % 2 == 1 then p else 0
    ensures x % (2 * p) <= x
  {
    var q, r := x / p, x % p;
    var h, b := q / 2, q % 2;
    HalvedProduct(p, q, h, b);
    RemainderUnique(x, 2 * p, h, p * b + r);
  }

  lemma HalvedProduct(p: nat, q: nat, h: nat, b: nat)
    requires q == 2 * h + b && b < 2
    ensures p * q == (2 * p) * h + p * b && p * b == if b == 1 then p else 0
  {
  }

  /** cvt_to_dst and the partial forms: some cells into a register, then all of them into their places. */
  method MoveBatch(mem: array<Byte>, src: nat, w: nat, dst: nat, w': nat, k: nat, n: nat, b: nat, ghost m: seq<Byte>)
    requires IsWidth(w) && IsWidth(w') && w <= w' && src <= dst && b <= k <= n
    requires dst + Span(w', n) <= mem.Length == |m| && Widened(m, mem[..], src, w, dst, w', k, n)
    modifies mem
    ensures Widened(m, mem[..], src, w, dst, w', k - b, n)
  {
    hide Widened, Span, StoredAt, CellsAt, CellLimit;
    BatchBounds(src, w, dst, w', k, n, b);
    var register := LoadAll(mem, src + Span(w, k - b), w, b);
    ghost var before := mem[..];
    WiderCells(w, w', register);
    StoreAll(mem, dst + Span(w', k - b), w', register);
    WidenBatch(m, before, mem[..], src, w, dst, w', k, n, register);
  }

  lemma BatchBounds(src: nat, w: nat, dst: nat, w': nat, k: nat, n: nat, b: nat)
    requires IsWidth(w) && IsWidth(w') && w <= w' && src <= dst && b <= k <= n
    ensures Span(w, k - b) + Span(w, b) == Span(w, k) && src + Span(w, k) <= dst + Span(w', n)
    ensures Span(w', k - b) + Span(w', b) == Span(w', k) && dst + Span(w', k) <= dst + Span(w', n)
  {
  }

  lemma WiderCells(w: nat, w': nat, units: seq<nat>)
    requires IsWidth(w) && IsWidth(w') && w <= w' && forall j :: 0 <= j < |units| ==> units[j] < CellLimit(w)
    ensures forall j :: 0 <= j < |units| ==> units[j] < CellLimit(w')
  {
  }

  method LoadAll(mem: array<Byte>, at: nat, w: nat, b: nat) returns (units: seq<nat>)
    requires IsWidth(w) && at + Span(w, b) <= mem.Length
    ensures |units| == b && CellsAt(mem[..], at, w, units)
    ensures forall j :: 0 <= j < b ==> units[j] < CellLimit(w)
  {
    units := [];
    for j := 0 to b
      invariant |units| == j && CellsAt(mem[..], at, w, units)
      invariant forall i :: 0 <= i < j ==> units[i] < CellLimit(w)
    {
      SpanMono(w, j + 1, b);
      SpanStep(w, j);
      var v := LoadFrom(mem, at + Span(w, j), w);
      units := units + [v];
    }
  }

  method LoadFrom(mem: array<Byte>, at: nat, w: nat) returns (v: nat)
    requires IsWidth(w) && at + w <= mem.Length
    ensures v == Load(mem[..], at, w)
  {
    if w == 1 {
      v := mem[at];
    } else if w == 2 {
      v := Join2(mem[at], mem[at + 1]);
    } else {
      v := Join4(mem[at], mem[at + 1], mem[at + 2], mem[at + 3]);
    }
  }

  /** memcpy of some bytes to `at`. */
  method CopyIn(mem: array<Byte>, at: nat, bytes: seq<Byte>)
    requires at + |bytes| <= mem.Length
    modifies mem
    ensures mem[..] == old(mem[..at]) + bytes + old(mem[at + |bytes|..])
  {
    forall i | 0 <= i < |bytes| {
      mem[at + i] := bytes[i];
    }
  }
}
