/** The ranks at work: the loops of a distributed write and read, over heaps updated in place. */
module Cluster {
  import opened PrefixSums
  import opened Partition
  import opened Collectives
  import opened BlockStore

  /** Size of the packet that carries one address. */
  const ADDRESS_PACKET: nat := 8

  /** Transfers of `n` blocks and of `n` addresses stay below 2^31 bytes. */
  predicate TransferFits(n: nat, cfg: Config) {
    n * cfg.B <= MAX_INT32 && n * ADDRESS_PACKET <= MAX_INT32
  }

  lemma FreshAddressExists(heap: Heap)
    ensures exists a: Addr :: a !in heap
  {
    var a := UpperBound(heap.Keys);
    assert a !in heap.Keys;
  }

  lemma {:induction false} UpperBound(s: set<Addr>) returns (a: Addr)
    ensures forall x :: x in s ==> x < a
  {
    if s == {} {
      a := 0;
    } else {
      var y :| y in s;
      a := UpperBound(s - {y});
      assert forall x :: x in s ==> x == y || x in s - {y};
      if a <= y { a := y + 1; }
    }
  }

  lemma {:induction false} HeapsBound(heaps: seq<Heap>) returns (bound: Addr)
    ensures forall r, a :: 0 <= r < |heaps| && a in heaps[r] ==> a < bound
  {
    if heaps == [] {
      bound := 0;
    } else {
      var last := |heaps| - 1;
      var below := HeapsBound(heaps[..last]);
      var own := UpperBound(heaps[last].Keys);
      bound := if below < own then own else below;
      forall r, a | 0 <= r < |heaps| && a in heaps[r] ensures a < bound {
        if r < last {
          assert heaps[r] == heaps[..last][r];
        } else {
          assert a in heaps[last].Keys;
        }
      }
    }
  }

  /** There always are addresses that `malloc` can return on all ranks. */
  lemma FreshAddresses(heaps: seq<Heap>, n: nat, cfg: Config) returns (addrs: seq<Addr>)
    requires |heaps| == cfg.p
    ensures |addrs| == n && FreshEverywhere(heaps, addrs, cfg)
  {
    var bound := HeapsBound(heaps);
    addrs := seq(n, k requires 0 <= k < n => bound + k);
    forall r: nat | r < cfg.p ensures FreshOn(heaps[r], PartOf(addrs, n, cfg, 1, r)) {
      PartIndex(addrs, n, cfg, 1, r);
    }
  }

  /** With a transfer that fits, the filled arrays hold the true counts and displacements. */
  lemma ArraysExact(n: nat, cfg: Config, unit: nat, r: nat)
    requires n * unit <= MAX_INT32 && r < cfg.p
    ensures CountAt(n, cfg.p, unit, r) == Counts(n, cfg, unit)[r]
    ensures DisplAt(n, cfg.p, unit, r) == Displs(Counts(n, cfg, unit))[r]
    ensures Displs(Counts(n, cfg, unit))[r] + Counts(n, cfg, unit)[r] <= n * unit
  {
    CountsExactIff(n, cfg.p, unit);
    CountsTile(n, cfg, unit);
  }

  /** The count and displacement arrays in bytes, read as whole packets. */
  lemma PacketArraysExact(n: nat, cfg: Config, r: nat)
    requires n * ADDRESS_PACKET <= MAX_INT32 && r < cfg.p
    ensures CountAt(n, cfg.p, ADDRESS_PACKET, r) == Counts(n, cfg, 1)[r] * ADDRESS_PACKET
    ensures DisplAt(n, cfg.p, ADDRESS_PACKET, r) == Displs(Counts(n, cfg, 1))[r] * ADDRESS_PACKET
    ensures CountAt(n, cfg.p, ADDRESS_PACKET, r) / ADDRESS_PACKET == Counts(n, cfg, 1)[r]
    ensures DisplAt(n, cfg.p, ADDRESS_PACKET, r) / ADDRESS_PACKET == Displs(Counts(n, cfg, 1))[r]
  {
    ArraysExact(n, cfg, ADDRESS_PACKET, r);
    PrefixScaled(Shares(n, cfg.p), ADDRESS_PACKET, r);
    PrefixScaled(Shares(n, cfg.p), 1, r);
  }

  lemma ArraysOfPackets(n: nat, cfg: Config)
    requires n * ADDRESS_PACKET <= MAX_INT32
    ensures forall r: nat | r < cfg.p ::
              DisplAt(n, cfg.p, ADDRESS_PACKET, r) == Displs(Counts(n, cfg, 1))[r] * ADDRESS_PACKET
  {
    forall r: nat | r < cfg.p
      ensures DisplAt(n, cfg.p, ADDRESS_PACKET, r) == Displs(Counts(n, cfg, 1))[r] * ADDRESS_PACKET
    {
      PacketArraysExact(n, cfg, r);
    }
  }

  lemma ArraysOfBytes(n: nat, cfg: Config)
    requires n * cfg.B <= MAX_INT32
    ensures forall r: nat | r < cfg.p :: DisplAt(n, cfg.p, cfg.B, r) == Displs(Counts(n, cfg, cfg.B))[r]
  {
    forall r: nat | r < cfg.p ensures DisplAt(n, cfg.p, cfg.B, r) == Displs(Counts(n, cfg, cfg.B))[r] {
      ArraysExact(n, cfg, cfg.B, r);
    }
  }

  lemma BytesFit(parts: seq<seq<Byte>>, n: nat, cfg: Config)
    requires Contributions(parts, Counts(n, cfg, cfg.B))
    ensures Fits(n * cfg.B, parts, Displs(Counts(n, cfg, cfg.B)))
  {
    CountsTile(n, cfg, cfg.B);
  }

  lemma ReceivedPart(buf: seq<Byte>, n: nat, cfg: Config, r: nat)
    requires |buf| == n * cfg.B && r < cfg.p
    ensures var c, d := Counts(n, cfg, cfg.B)[r], Displs(Counts(n, cfg, cfg.B))[r];
            && d + c <= |buf|
            && buf[d..d + c] == PartOf(buf, n, cfg, cfg.B, r)
            && c == Counts(n, cfg, 1)[r] * cfg.B
  {
    CountsTile(n, cfg, cfg.B);
  }

  lemma ReceivedPackets(addresses: seq<Addr>, cfg: Config, r: nat)
    requires r < cfg.p
    ensures var c, d := Counts(|addresses|, cfg, 1)[r], Displs(Counts(|addresses|, cfg, 1))[r];
            && d + c <= |addresses|
            && addresses[d..d + c] == PartOf(addresses, |addresses|, cfg, 1, r)
            && (r == 0 ==> d == 0)
  {
    CountsTile(|addresses|, cfg, 1);
  }

  /** Rank `r` has stored its part of `buf` behind the fresh addresses `own`. */
  ghost predicate StoredShare(before: Heap, after: Heap, buf: seq<Byte>, own: seq<Addr>, n: nat, cfg: Config, r: nat)
    requires |buf| == n * cfg.B && r < cfg.p
  {
    && |own| == Shares(n, cfg.p)[r]
    && FreshOn(before, own)
    && after == Store(before, PartOf(buf, n, cfg, cfg.B, r), own, cfg.B)
  }

  lemma PacketsFit(parts: seq<seq<Addr>>, n: nat, cfg: Config)
    requires |parts| == cfg.p && forall r: nat :: r < cfg.p ==> |parts[r]| == Shares(n, cfg.p)[r]
    ensures Fits(n, parts, Displs(Counts(n, cfg, 1)))
  {
    CountsTile(n, cfg, 1);
  }

  lemma GatheredParts(addresses: seq<Addr>, parts: seq<seq<Addr>>, n: nat, cfg: Config)
    requires |parts| == cfg.p && forall r: nat :: r < cfg.p ==> |parts[r]| == Shares(n, cfg.p)[r]
    requires Fits(n, parts, Displs(Counts(n, cfg, 1)))
    requires exists recv: seq<Addr> :: |recv| == n && addresses == Gatherv(recv, parts, Displs(Counts(n, cfg, 1)))
    ensures |addresses| == n
    ensures forall r: nat :: r < cfg.p ==> PartOf(addresses, n, cfg, 1, r) == parts[r]
  {
    var counts := Counts(n, cfg, 1);
    CountsTile(n, cfg, 1);
    var recv: seq<Addr> :| |recv| == n && addresses == Gatherv(recv, parts, Displs(counts));
    ScatterAfterGather(recv, parts, counts, Displs(counts));
  }

  lemma AllSharesStored(before: seq<Heap>, after: seq<Heap>, buf: seq<Byte>, addresses: seq<Addr>,
                        parts: seq<seq<Addr>>, cfg: Config)
    requires |before| == |after| == |parts| == cfg.p && |buf| == |addresses| * cfg.B
    requires forall r: nat :: r < cfg.p ==> PartOf(addresses, |addresses|, cfg, 1, r) == parts[r]
    requires forall r: nat :: r < cfg.p ==> StoredShare(before[r], after[r], buf, parts[r], |addresses|, cfg, r)
    ensures FreshEverywhere(before, addresses, cfg)
    ensures after == WriteHeaps(before, buf, addresses, cfg)
  {
  }

  class Ranks {
    const cfg: Config
    var heaps: seq<Heap>

    ghost predicate Valid()
      reads this
    {
      |heaps| == cfg.p
    }

    constructor (cfg: Config)
      ensures Valid() && this.cfg == cfg
      ensures heaps == seq(cfg.p, _ => map[])
    {
      this.cfg := cfg;
      heaps := seq(cfg.p, _ => map[]);
    }

    /** One rank copies its received bytes into freshly allocated blocks. */
    method StoreShare(r: nat, local: seq<Byte>, effectiveBlocks: nat) returns (addrs: seq<Addr>)
      requires Valid() && r < cfg.p && |local| == effectiveBlocks * cfg.B
      modifies this
      ensures Valid() && |addrs| == effectiveBlocks
      ensures FreshOn(old(heaps[r]), addrs)
      ensures heaps == old(heaps)[r := Store(old(heaps[r]), local, addrs, cfg.B)]
    {
      addrs := [];
      ghost var before := heaps[r];
      for i := 0 to effectiveBlocks
        invariant Valid() && |addrs| == i
        invariant 0 <= i * cfg.B <= |local|
        invariant FreshOn(before, addrs)
        invariant forall a :: a in before || a in addrs <==> a in heaps[r]
        invariant heaps == old(heaps)[r := Store(before, local[..i * cfg.B], addrs, cfg.B)]
      {
        FreshAddressExists(heaps[r]);
        var data: Addr :| data !in heaps[r];
        NextBlock(local, effectiveBlocks, cfg.B, i);
        ghost var stored := local[..(i + 1) * cfg.B];
        assert stored[..i * cfg.B] == local[..i * cfg.B];
        assert stored[i * cfg.B..] == local[i * cfg.B..(i + 1) * cfg.B];
        assert (addrs + [data])[..i] == addrs;
        var block: seq<Byte> := local[i * cfg.B..(i + 1) * cfg.B];
        var heap: Heap := heaps[r][data := block];
        heaps := heaps[r := heap];
        addrs := addrs + [data];
      }
      assert local[..effectiveBlocks * cfg.B] == local;
    }

    /** One rank copies the blocks behind the received addresses into its send buffer. */
    method LoadShare(r: nat, addrs: seq<Addr>) returns (local: seq<Byte>)
      requires Valid() && r < cfg.p && Known(heaps[r], addrs, cfg.B)
      ensures local == Load(heaps[r], addrs, cfg.B)
    {
      local := [];
      for i := 0 to |addrs|
        invariant local == Load(heaps[r], addrs[..i], cfg.B)
      {
        assert addrs[..i + 1][..i] == addrs[..i];
        local := local + heaps[r][addrs[i]];
      }
      assert addrs[..|addrs|] == addrs;
    }

    /** Rank `r` stores what the scatter sent it. */
    method StoreReceived(r: nat, buf: seq<Byte>, n: nat, count: int, displ: int, packetBytes: int)
      returns (own: seq<Addr>)
      requires Valid() && r < cfg.p && |buf| == n * cfg.B && TransferFits(n, cfg)
      requires count == CountAt(n, cfg.p, cfg.B, r) && displ == DisplAt(n, cfg.p, cfg.B, r)
      requires packetBytes == CountAt(n, cfg.p, ADDRESS_PACKET, r)
      modifies this
      ensures Valid() && StoredShare(old(heaps)[r], heaps[r], buf, own, n, cfg, r)
      ensures forall i :: 0 <= i < cfg.p && i != r ==> heaps[i] == old(heaps)[i]
    {
      ArraysExact(n, cfg, cfg.B, r);
      PacketArraysExact(n, cfg, r);
      ReceivedPart(buf, n, cfg, r);
      own := StoreShare(r, buf[displ..displ + count], packetBytes / ADDRESS_PACKET);
    }

    /** Every rank in turn stores what the scatter sent it. */
    method StoreAll(buf: seq<Byte>, n: nat, counts: array<int>, displs: array<int>, packetBytes: array<int>)
      returns (parts: seq<seq<Addr>>)
      requires Valid() && |buf| == n * cfg.B && TransferFits(n, cfg)
      requires counts.Length == displs.Length == packetBytes.Length == cfg.p
      requires forall r: nat | r < cfg.p ::
                 counts[r] == CountAt(n, cfg.p, cfg.B, r) && displs[r] == DisplAt(n, cfg.p, cfg.B, r)
      requires forall r: nat | r < cfg.p :: packetBytes[r] == CountAt(n, cfg.p, ADDRESS_PACKET, r)
      modifies this
      ensures Valid() && |parts| == cfg.p
      ensures forall r: nat :: r < cfg.p ==> StoredShare(old(heaps)[r], heaps[r], buf, parts[r], n, cfg, r)
    {
      parts := [];
      for r := 0 to cfg.p
        invariant Valid() && |parts| == r
        invariant forall i: nat :: i < r ==> StoredShare(old(heaps)[i], heaps[i], buf, parts[i], n, cfg, i)
        invariant forall i :: r <= i < cfg.p ==> heaps[i] == old(heaps)[i]
      {
        var own := StoreReceived(r, buf, n, counts[r], displs[r], packetBytes[r]);
        parts := parts + [own];
      }
    }

    /** Scatter, local stores, gather of the addresses. */
    method DistributedStore(buf: seq<Byte>, n: nat) returns (addresses: seq<Addr>)
      requires Valid() && |buf| == n * cfg.B && TransferFits(n, cfg)
      modifies this
      ensures Valid() && |addresses| == n
      ensures FreshEverywhere(old(heaps), addresses, cfg)
      ensures heaps == WriteHeaps(old(heaps), buf, addresses, cfg)
    {
      var scatterCounts, scatterDispls, _ := FillCounts(n, cfg.p, cfg.B);
      var gatherCounts, gatherDispls, _ := FillCounts(n, cfg.p, ADDRESS_PACKET);
      var parts := StoreAll(buf, n, scatterCounts, scatterDispls, gatherCounts);
      ArraysOfPackets(n, cfg);
      PacketsFit(parts, n, cfg);
      addresses := GatherPackets(n, parts, gatherDispls, Displs(Counts(n, cfg, 1)));
      GatheredParts(addresses, parts, n, cfg);
      AllSharesStored(old(heaps), heaps, buf, addresses, parts, cfg);
    }

    /** The root places the packets of each rank at that rank's displacement. */
    method GatherPackets(n: nat, parts: seq<seq<Addr>>, displs: array<int>, ghost at: seq<nat>)
      returns (addresses: seq<Addr>)
      requires Fits(n, parts, at) && displs.Length == |parts|
      requires forall r: nat | r < |parts| :: displs[r] == at[r] * ADDRESS_PACKET
      ensures |addresses| == n
      ensures exists recv: seq<Addr> :: |recv| == n && addresses == Gatherv(recv, parts, at)
    {
      addresses := seq(n, _ => 0);
      ghost var recv := addresses;
      for r := 0 to |parts|
        invariant |addresses| == n
        invariant addresses == GathervFrom(recv, parts, at, r)
      {
        addresses := Place(addresses, displs[r] / ADDRESS_PACKET, parts[r]);
      }
    }

    /** Rank `r` loads what is behind the addresses that the scatter gave it. A root that
        scatters in place takes them from the front of its send buffer. */
    method LoadReceived(r: nat, addresses: seq<Addr>, inPlace: bool, packetBytes: int, packetDispl: int)
      returns (local: seq<Byte>)
      requires Valid() && r < cfg.p && Local(heaps, addresses, cfg) && TransferFits(|addresses|, cfg)
      requires inPlace ==> r == 0
      requires packetBytes == CountAt(|addresses|, cfg.p, ADDRESS_PACKET, r)
      requires packetDispl == DisplAt(|addresses|, cfg.p, ADDRESS_PACKET, r)
      ensures local == Load(heaps[r], PartOf(addresses, |addresses|, cfg, 1, r), cfg.B)
    {
      PacketArraysExact(|addresses|, cfg, r);
      ReceivedPackets(addresses, cfg, r);
      var effectiveBlocks := packetBytes / ADDRESS_PACKET;
      var start := if inPlace then 0 else packetDispl / ADDRESS_PACKET;
      local := LoadShare(r, addresses[start..start + effectiveBlocks]);
    }

    method LoadAll(addresses: seq<Addr>, inPlaceAtMaster: bool, packetBytes: array<int>, packetDispls: array<int>)
      returns (parts: seq<seq<Byte>>)
      requires Valid() && Local(heaps, addresses, cfg) && TransferFits(|addresses|, cfg)
      requires packetBytes.Length == packetDispls.Length == cfg.p
      requires forall r: nat | r < cfg.p ::
                 && packetBytes[r] == CountAt(|addresses|, cfg.p, ADDRESS_PACKET, r)
                 && packetDispls[r] == DisplAt(|addresses|, cfg.p, ADDRESS_PACKET, r)
      ensures parts == LoadParts(heaps, addresses, cfg)
    {
      parts := [];
      for r := 0 to cfg.p
        invariant |parts| == r
        invariant forall i: nat :: i < r ==>
                                     parts[i] == Load(heaps[i], PartOf(addresses, |addresses|, cfg, 1, i), cfg.B)
      {
        var local := LoadReceived(r, addresses, inPlaceAtMaster && r == 0, packetBytes[r], packetDispls[r]);
        parts := parts + [local];
      }
    }

    /** Scatter of the addresses, local loads, gather of the bytes into an uninitialised buffer. */
    method DistributedLoad(addresses: seq<Addr>, inPlaceAtMaster: bool) returns (buf: seq<Byte>)
      requires Valid() && Local(heaps, addresses, cfg) && TransferFits(|addresses|, cfg)
      ensures buf == ReadBytes(heaps, addresses, cfg)
    {
      var n := |addresses|;
      var scatterCounts, scatterDispls, _ := FillCounts(n, cfg.p, ADDRESS_PACKET);
      var gatherCounts, gatherDispls, _ := FillCounts(n, cfg.p, cfg.B);
      var parts := LoadAll(addresses, inPlaceAtMaster, scatterCounts, scatterDispls);
      ArraysOfBytes(n, cfg);
      BytesFit(parts, n, cfg);
      var readBuff: seq<Byte> := *;
      readBuff := if |readBuff| == n * cfg.B then readBuff else seq(n * cfg.B, _ => 0);
      buf := GatherBytes(readBuff, parts, gatherDispls, Displs(Counts(n, cfg, cfg.B)));
      ReceiveBufferIrrelevant(parts, readBuff, seq(n * cfg.B, _ => 0), n, cfg);
    }

    method GatherBytes(readBuff: seq<Byte>, parts: seq<seq<Byte>>, displs: array<int>, ghost at: seq<nat>)
      returns (buf: seq<Byte>)
      requires Fits(|readBuff|, parts, at) && displs.Length == |parts|
      requires forall r: nat | r < |parts| :: displs[r] == at[r]
      ensures buf == Gatherv(readBuff, parts, at)
    {
      buf := readBuff;
      for r := 0 to |parts|
        invariant buf == GathervFrom(readBuff, parts, at, r)
      {
        buf := Place(buf, displs[r], parts[r]);
      }
    }
  }

  lemma NextBlock(local: seq<Byte>, m: nat, B: nat, i: nat)
    requires |local| == m * B && i < m
    ensures 0 <= i * B <= (i + 1) * B <= |local|
    ensures (i + 1) * B == i * B + B
  {
    assert (i + 1) * B <= m * B;
  }
}
