/** The block store as one value: a separate heap per rank, and what one distributed write
    and one distributed read do to it. An address means something only on the rank that
    allocated it. The addresses that `malloc` returns are part of a write's input. */
module BlockStore {
  import opened PrefixSums
  import opened Partition
  import opened Collectives

  type Byte = b: int | 0 <= b < 256
  type Addr = nat
  type Heap = map<Addr, seq<Byte>>

  /** Block size `B` and number of ranks `p`. */
  datatype RawConfig = Config(B: nat, p: nat)
  type Config = c: RawConfig | c.B > 0 && c.p > 0 witness Config(131072, 1)

  /** Counts of a transfer of `n` items of `unit` elements each. */
  function Counts(n: nat, cfg: Config, unit: nat): (c: seq<nat>)
    ensures |c| == cfg.p
  {
    Scaled(Shares(n, cfg.p), unit)
  }

  function Displs(counts: seq<nat>): (d: seq<nat>)
    ensures |d| == |counts|
    ensures forall r {:trigger d[r]} :: 0 <= r < |d| ==> d[r] == Prefix(counts, r)
  {
    seq(|counts|, r requires 0 <= r < |counts| => Prefix(counts, r))
  }

  lemma CountsTile(n: nat, cfg: Config, unit: nat)
    ensures Tiles(Counts(n, cfg, unit), Displs(Counts(n, cfg, unit)), n * unit)
  {
    var counts := Counts(n, cfg, unit);
    SharesCoverAll(n, cfg.p);
    PrefixScaled(Shares(n, cfg.p), unit, cfg.p);
    SideBySideTiles(counts, Displs(counts));
  }

  /** What rank `r` gets when `buf`, `n` items of `unit` elements, is scattered. */
  function PartOf<T>(buf: seq<T>, n: nat, cfg: Config, unit: nat, r: nat): (part: seq<T>)
    requires |buf| == n * unit && r < cfg.p
    ensures |part| == Shares(n, cfg.p)[r] * unit
  {
    CountsTile(n, cfg, unit);
    Scatterv(buf, Counts(n, cfg, unit), Displs(Counts(n, cfg, unit)), r)
  }

  /** What the root holds after gathering one part from each rank into `recv`. */
  function GatherParts<T>(recv: seq<T>, parts: seq<seq<T>>, n: nat, cfg: Config, unit: nat): (out: seq<T>)
    requires |recv| == n * unit
    requires Contributions(parts, Counts(n, cfg, unit))
    ensures |out| == n * unit
  {
    CountsTile(n, cfg, unit);
    Gatherv(recv, parts, Displs(Counts(n, cfg, unit)))
  }

  // ---- one rank ----

  ghost predicate Distinct(addrs: seq<Addr>)
  {
    forall i, j :: 0 <= i < j < |addrs| ==> addrs[i] != addrs[j]
  }

  /** `malloc` never returns an address in use. */
  ghost predicate FreshOn(heap: Heap, addrs: seq<Addr>)
  {
    Distinct(addrs) && forall a :: a in addrs ==> a !in heap
  }

  /** The heap after copying the local bytes block by block to the given addresses. */
  function Store(heap: Heap, local: seq<Byte>, addrs: seq<Addr>, B: nat): Heap
    requires |local| == |addrs| * B
  {
    if addrs == [] then heap
    else
      var i := |addrs| - 1;
      assert |local| == i * B + B;
      Store(heap, local[..i * B], addrs[..i], B)[addrs[i] := local[i * B..]]
  }

  /** Every address is one of this rank's own, and holds a full block. */
  ghost predicate Known(heap: Heap, addrs: seq<Addr>, B: nat)
  {
    forall i :: 0 <= i < |addrs| ==> addrs[i] in heap && |heap[addrs[i]]| == B
  }

  /** The bytes found behind the given addresses. */
  function Load(heap: Heap, addrs: seq<Addr>, B: nat): (local: seq<Byte>)
    requires Known(heap, addrs, B)
    ensures |local| == |addrs| * B
  {
    if addrs == [] then []
    else
      var i := |addrs| - 1;
      assert i * B + B == |addrs| * B;
      Load(heap, addrs[..i], B) + heap[addrs[i]]
  }

  /** One heap extends another: nothing allocated before has changed. */
  ghost predicate Extends(before: Heap, after: Heap)
  {
    forall a :: a in before ==> a in after && after[a] == before[a]
  }

  lemma {:induction false} StoreExtends(heap: Heap, local: seq<Byte>, addrs: seq<Addr>, B: nat)
    requires |local| == |addrs| * B && FreshOn(heap, addrs)
    ensures Extends(heap, Store(heap, local, addrs, B))
  {
    if addrs != [] {
      var i := |addrs| - 1;
      assert |local| == i * B + B;
      StoreExtends(heap, local[..i * B], addrs[..i], B);
    }
  }

  lemma {:induction false} LoadFrame(before: Heap, after: Heap, addrs: seq<Addr>, B: nat)
    requires Known(before, addrs, B)
    requires forall i :: 0 <= i < |addrs| ==> addrs[i] in after && after[addrs[i]] == before[addrs[i]]
    ensures Known(after, addrs, B)
    ensures Load(after, addrs, B) == Load(before, addrs, B)
  {
    if addrs != [] {
      LoadFrame(before, after, addrs[..|addrs| - 1], B);
    }
  }

  /** A rank that loads what it has just stored gets its bytes back. */
  lemma {:induction false} LoadAfterStore(heap: Heap, local: seq<Byte>, addrs: seq<Addr>, B: nat)
    requires |local| == |addrs| * B && Distinct(addrs)
    ensures Known(Store(heap, local, addrs, B), addrs, B)
    ensures Load(Store(heap, local, addrs, B), addrs, B) == local
  {
    if addrs != [] {
      var i := |addrs| - 1;
      assert |local| == i * B + B;
      var before := Store(heap, local[..i * B], addrs[..i], B);
      var after := Store(heap, local, addrs, B);
      LoadAfterStore(heap, local[..i * B], addrs[..i], B);
      LoadFrame(before, after, addrs[..i], B);
      assert local[..i * B] + local[i * B..] == local;
    }
  }

  // ---- all ranks ----

  /** The addresses of a write of `|addrs|` blocks are fresh on the rank that gets them. */
  ghost predicate FreshEverywhere(heaps: seq<Heap>, addrs: seq<Addr>, cfg: Config)
    requires |heaps| == cfg.p
  {
    forall r: nat :: r < cfg.p ==> FreshOn(heaps[r], PartOf(addrs, |addrs|, cfg, 1, r))
  }

  /** The heaps after a write: each rank stores its own contiguous share of the buffer. */
  function WriteHeaps(heaps: seq<Heap>, buf: seq<Byte>, addrs: seq<Addr>, cfg: Config): (after: seq<Heap>)
    requires |heaps| == cfg.p && |buf| == |addrs| * cfg.B
    ensures |after| == cfg.p
  {
    seq(cfg.p, r requires 0 <= r < cfg.p =>
      Store(heaps[r], PartOf(buf, |addrs|, cfg, cfg.B, r), PartOf(addrs, |addrs|, cfg, 1, r), cfg.B))
  }

  /** Pointer locality: each address that a read hands to a rank was allocated by that rank. */
  ghost predicate Local(heaps: seq<Heap>, addrs: seq<Addr>, cfg: Config)
    requires |heaps| == cfg.p
  {
    forall r: nat :: r < cfg.p ==> Known(heaps[r], PartOf(addrs, |addrs|, cfg, 1, r), cfg.B)
  }

  /** What each rank contributes to the gather of a read. */
  function LoadParts(heaps: seq<Heap>, addrs: seq<Addr>, cfg: Config): (parts: seq<seq<Byte>>)
    requires |heaps| == cfg.p && Local(heaps, addrs, cfg)
    ensures Contributions(parts, Counts(|addrs|, cfg, cfg.B))
    ensures forall r :: 0 <= r < cfg.p ==> parts[r] == Load(heaps[r], PartOf(addrs, |addrs|, cfg, 1, r), cfg.B)
  {
    seq(cfg.p, r requires 0 <= r < cfg.p => Load(heaps[r], PartOf(addrs, |addrs|, cfg, 1, r), cfg.B))
  }

  /** The buffer that the root of a read ends up with, starting from the receive buffer `recv`. */
  function ReadBuffer(heaps: seq<Heap>, addrs: seq<Addr>, recv: seq<Byte>, cfg: Config): (buf: seq<Byte>)
    requires |heaps| == cfg.p && Local(heaps, addrs, cfg)
    requires |recv| == |addrs| * cfg.B
    ensures |buf| == |addrs| * cfg.B
  {
    GatherParts(recv, LoadParts(heaps, addrs, cfg), |addrs|, cfg, cfg.B)
  }

  /** What the receive buffer held before a gather has no influence on what it holds after. */
  lemma ReceiveBufferIrrelevant(parts: seq<seq<Byte>>, recv: seq<Byte>, other: seq<Byte>, n: nat, cfg: Config)
    requires |recv| == |other| == n * cfg.B
    requires Contributions(parts, Counts(n, cfg, cfg.B))
    ensures GatherParts(recv, parts, n, cfg, cfg.B) == GatherParts(other, parts, n, cfg, cfg.B)
  {
    var counts := Counts(n, cfg, cfg.B);
    CountsTile(n, cfg, cfg.B);
    ScatterAfterGather(recv, parts, counts, Displs(counts));
    GatherAfterScatter(Gatherv(recv, parts, Displs(counts)), other, parts, counts, Displs(counts));
  }

  /** The bytes behind a list of addresses, as any read of all of them returns them. */
  function ReadBytes(heaps: seq<Heap>, addrs: seq<Addr>, cfg: Config): (buf: seq<Byte>)
    requires |heaps| == cfg.p && Local(heaps, addrs, cfg)
    ensures |buf| == |addrs| * cfg.B
  {
    ReadBuffer(heaps, addrs, seq(|addrs| * cfg.B, _ => 0), cfg)
  }

  /** Reading what was written gives the buffer back, whichever rank was the root of either
      and whatever the receive buffer held; every address is dereferenced on its own rank. */
  lemma ReadAfterWrite(heaps: seq<Heap>, buf: seq<Byte>, addrs: seq<Addr>, recv: seq<Byte>, cfg: Config)
    requires |heaps| == cfg.p && |recv| == |buf| == |addrs| * cfg.B
    requires FreshEverywhere(heaps, addrs, cfg)
    ensures Local(WriteHeaps(heaps, buf, addrs, cfg), addrs, cfg)
    ensures ReadBuffer(WriteHeaps(heaps, buf, addrs, cfg), addrs, recv, cfg) == buf
  {
    var after := WriteHeaps(heaps, buf, addrs, cfg);
    var n := |addrs|;
    forall r: nat | r < cfg.p
      ensures Known(after[r], PartOf(addrs, n, cfg, 1, r), cfg.B)
      ensures Load(after[r], PartOf(addrs, n, cfg, 1, r), cfg.B) == PartOf(buf, n, cfg, cfg.B, r)
    {
      LoadAfterStore(heaps[r], PartOf(buf, n, cfg, cfg.B, r), PartOf(addrs, n, cfg, 1, r), cfg.B);
    }
    CountsTile(n, cfg, cfg.B);
    GatherAfterScatter(buf, recv, LoadParts(after, addrs, cfg),
                       Counts(n, cfg, cfg.B), Displs(Counts(n, cfg, cfg.B)));
  }

  /** Heaps that only grow. */
  ghost predicate Grown(before: seq<Heap>, after: seq<Heap>)
  {
    |before| == |after| && forall r :: 0 <= r < |before| ==> Extends(before[r], after[r])
  }

  lemma WriteGrows(heaps: seq<Heap>, buf: seq<Byte>, addrs: seq<Addr>, cfg: Config)
    requires |heaps| == cfg.p && |buf| == |addrs| * cfg.B
    requires FreshEverywhere(heaps, addrs, cfg)
    ensures Grown(heaps, WriteHeaps(heaps, buf, addrs, cfg))
  {
    forall r: nat | r < cfg.p ensures Extends(heaps[r], WriteHeaps(heaps, buf, addrs, cfg)[r]) {
      StoreExtends(heaps[r], PartOf(buf, |addrs|, cfg, cfg.B, r), PartOf(addrs, |addrs|, cfg, 1, r), cfg.B);
    }
  }

  /** Writes to other files leave a file's stored bytes as they were. */
  lemma ReadFrame(before: seq<Heap>, after: seq<Heap>, addrs: seq<Addr>, recv: seq<Byte>, cfg: Config)
    requires |before| == cfg.p && Grown(before, after)
    requires Local(before, addrs, cfg) && |recv| == |addrs| * cfg.B
    ensures Local(after, addrs, cfg)
    ensures ReadBuffer(after, addrs, recv, cfg) == ReadBuffer(before, addrs, recv, cfg)
  {
    forall r: nat | r < cfg.p
      ensures Known(after[r], PartOf(addrs, |addrs|, cfg, 1, r), cfg.B)
      ensures Load(after[r], PartOf(addrs, |addrs|, cfg, 1, r), cfg.B)
              == Load(before[r], PartOf(addrs, |addrs|, cfg, 1, r), cfg.B)
    {
      LoadFrame(before[r], after[r], PartOf(addrs, |addrs|, cfg, 1, r), cfg.B);
    }
    assert LoadParts(after, addrs, cfg) == LoadParts(before, addrs, cfg);
  }

  lemma RowBefore(i: nat, l: nat, B: nat)
    requires i < l
    ensures 0 <= i * B && i * B + B <= l * B
  {
    assert (i + 1) * B <= l * B;
  }

  /** One more block stored: it holds its own bytes, and the earlier ones keep theirs. */
  lemma StoredLast(heap: Heap, local: seq<Byte>, addrs: seq<Addr>, B: nat, m: nat)
    requires |local| == |addrs| * B && Distinct(addrs) && addrs != []
    requires m == (|addrs| - 1) * B && m + B == |local|
    ensures var l := |addrs| - 1;
            var before, after := Store(heap, local[..m], addrs[..l], B), Store(heap, local, addrs, B);
            && addrs[l] in after && after[addrs[l]] == local[m..m + B]
            && forall k :: 0 <= k < l && addrs[k] in before ==> addrs[k] in after && after[addrs[k]] == before[addrs[k]]
  {
  }

  lemma {:induction false} StoredAt(heap: Heap, local: seq<Byte>, addrs: seq<Addr>, B: nat, i: nat)
    requires |local| == |addrs| * B && Distinct(addrs) && i < |addrs|
    ensures 0 <= i * B <= i * B + B <= |local|
    ensures addrs[i] in Store(heap, local, addrs, B)
    ensures Store(heap, local, addrs, B)[addrs[i]] == local[i * B..i * B + B]
    decreases |addrs|
  {
    var l := |addrs| - 1;
    var m := l * B;
    RowBefore(l, |addrs|, B);
    RowBefore(i, |addrs|, B);
    assert m + B == |local| by { assert |addrs| == l + 1; }
    StoredLast(heap, local, addrs, B, m);
    if i < l {
      RowBefore(i, l, B);
      StoredAt(heap, local[..m], addrs[..l], B, i);
      SliceOfSlice(local, 0, m, i * B, i * B + B);
    }
  }

  lemma StartOfPart(n: nat, cfg: Config, unit: nat, r: nat)
    requires r < cfg.p
    ensures Displs(Counts(n, cfg, unit))[r] == Prefix(Shares(n, cfg.p), r) * unit
    ensures Counts(n, cfg, unit)[r] == Shares(n, cfg.p)[r] * unit
    ensures Displs(Counts(n, cfg, unit))[r] + Counts(n, cfg, unit)[r] <= n * unit
  {
    CountsTile(n, cfg, unit);
    PrefixScaled(Shares(n, cfg.p), unit, r);
  }

  lemma PartIndex<T>(buf: seq<T>, n: nat, cfg: Config, unit: nat, r: nat)
    requires |buf| == n * unit && r < cfg.p
    ensures var d := Prefix(Shares(n, cfg.p), r);
            && d * unit + Shares(n, cfg.p)[r] * unit <= |buf|
            && PartOf(buf, n, cfg, unit, r) == buf[d * unit..d * unit + Shares(n, cfg.p)[r] * unit]
  {
    StartOfPart(n, cfg, unit, r);
    var start, size := Displs(Counts(n, cfg, unit))[r], Counts(n, cfg, unit)[r];
    assert PartOf(buf, n, cfg, unit, r) == buf[start..start + size];
  }

  lemma SliceOfSlice<T>(buf: seq<T>, a: nat, b: nat, c: nat, d: nat)
    requires a <= b <= |buf| && c <= d <= b - a
    ensures buf[a..b][c..d] == buf[a + c..a + d]
  {
    var left, right := buf[a..b][c..d], buf[a + c..a + d];
    forall i | 0 <= i < |left| ensures left[i] == right[i] {
    }
  }

  /** Block `i` of a part that starts at block `d` is block `d + i` of the whole buffer. */
  lemma BlockOfPart<T>(buf: seq<T>, part: seq<T>, d: nat, s: nat, unit: nat, i: nat)
    requires d * unit + s * unit <= |buf| && i < s
    requires part == buf[d * unit..d * unit + s * unit]
    ensures 0 <= i * unit <= i * unit + unit <= |part|
    ensures 0 <= (d + i) * unit <= (d + i) * unit + unit <= |buf|
    ensures part[i * unit..i * unit + unit] == buf[(d + i) * unit..(d + i) * unit + unit]
  {
    Window(d, i, s, unit);
    SliceOfSlice(buf, d * unit, d * unit + s * unit, i * unit, i * unit + unit);
  }

  lemma Window(d: nat, i: nat, s: nat, unit: nat)
    requires i < s
    ensures 0 <= i * unit <= i * unit + unit <= s * unit
    ensures (d + i) * unit == d * unit + i * unit
  {
    assert (i + 1) * unit <= s * unit;
  }

  /** After a write, block `k` of the buffer sits behind address `k` on the heap of the one
      rank whose share holds `k`, which round-robin placement would not name. */
  lemma BlockOnItsOwner(heaps: seq<Heap>, buf: seq<Byte>, addrs: seq<Addr>, cfg: Config, k: nat)
    requires |heaps| == cfg.p && |buf| == |addrs| * cfg.B
    requires FreshEverywhere(heaps, addrs, cfg) && k < |addrs|
    ensures 0 <= k * cfg.B <= k * cfg.B + cfg.B <= |buf|
    ensures var heap := WriteHeaps(heaps, buf, addrs, cfg)[Owner(|addrs|, cfg.p, k)];
            addrs[k] in heap && heap[addrs[k]] == buf[k * cfg.B..k * cfg.B + cfg.B]
  {
    var n, B := |addrs|, cfg.B;
    var r := Owner(n, cfg.p, k);
    var d, s := Prefix(Shares(n, cfg.p), r), Shares(n, cfg.p)[r];
    var i := k - d;
    var own := PartOf(addrs, n, cfg, 1, r);
    PartIndex(addrs, n, cfg, 1, r);
    PartIndex(buf, n, cfg, B, r);
    BlockOfPart(buf, PartOf(buf, n, cfg, B, r), d, s, B, i);
    StoredAt(heaps[r], PartOf(buf, n, cfg, B, r), own, B, i);
  }

  /** A write of at least one block shows on some heap. */
  lemma WriteChangesHeaps(heaps: seq<Heap>, buf: seq<Byte>, addrs: seq<Addr>, cfg: Config)
    requires |heaps| == cfg.p && |buf| == |addrs| * cfg.B && FreshEverywhere(heaps, addrs, cfg) && addrs != []
    ensures WriteHeaps(heaps, buf, addrs, cfg) != heaps
  {
    var r := Owner(|addrs|, cfg.p, 0);
    BlockOnItsOwner(heaps, buf, addrs, cfg, 0);
    PartIndex(addrs, |addrs|, cfg, 1, r);
    assert addrs[0] == PartOf(addrs, |addrs|, cfg, 1, r)[0 - Prefix(Shares(|addrs|, cfg.p), r)];
    assert addrs[0] !in heaps[r];
  }
}
