/** The two data-moving collectives of MPI-3.1, sections 5.5 and 5.6, seen from the root:
    what a rank receives in a scatter, and what a gather leaves in the receive buffer. */
module Collectives {
  import opened PrefixSums

  /** Displacements that lay the counts side by side over a buffer of `total` items. */
  ghost predicate Tiles(counts: seq<nat>, displs: seq<nat>, total: nat)
  {
    && |displs| == |counts|
    && (forall r {:trigger displs[r]} :: 0 <= r < |counts| ==> displs[r] == Prefix(counts, r))
    && Prefix(counts, |counts|) == total
    && (forall r :: 0 <= r < |counts| ==> displs[r] + counts[r] <= total)
  }

  lemma SideBySideTiles(counts: seq<nat>, displs: seq<nat>)
    requires |displs| == |counts|
    requires forall r {:trigger displs[r]} :: 0 <= r < |counts| ==> displs[r] == Prefix(counts, r)
    ensures Tiles(counts, displs, Prefix(counts, |counts|))
  {
    forall r | 0 <= r < |counts| ensures displs[r] + counts[r] <= Prefix(counts, |counts|) {
      IntervalEnds(counts, r);
    }
  }

  lemma IntervalEnds(counts: seq<nat>, r: nat)
    requires r < |counts|
    ensures Prefix(counts, r) + counts[r] <= Prefix(counts, |counts|)
  {
    PrefixMonotone(counts, r + 1, |counts|);
  }

  lemma TilesInOrder(counts: seq<nat>, displs: seq<nat>, total: nat, r: nat, s: nat)
    requires Tiles(counts, displs, total) && r < s < |counts|
    ensures displs[r] + counts[r] <= displs[s]
  {
    PrefixMonotone(counts, r + 1, s);
  }

  /** The part of the send buffer that rank `r` receives. */
  function Scatterv<T>(buf: seq<T>, counts: seq<nat>, displs: seq<nat>, r: nat): (part: seq<T>)
    requires r < |counts| == |displs|
    requires displs[r] + counts[r] <= |buf|
    ensures |part| == counts[r]
  {
    buf[displs[r]..displs[r] + counts[r]]
  }

  /** Every contribution fits the receive buffer at its displacement. */
  predicate Fits<T>(total: nat, parts: seq<seq<T>>, displs: seq<nat>)
  {
    && |parts| == |displs|
    && forall i :: 0 <= i < |parts| ==> displs[i] + |parts[i]| <= total
  }

  function Place<T>(recv: seq<T>, at: nat, part: seq<T>): (out: seq<T>)
    requires at + |part| <= |recv|
    ensures |out| == |recv|
  {
    seq(|recv|, k requires 0 <= k < |recv| => if at <= k < at + |part| then part[k - at] else recv[k])
  }

  /** The receive buffer after the contributions of the first `r` ranks have been placed. */
  function GathervFrom<T>(recv: seq<T>, parts: seq<seq<T>>, displs: seq<nat>, r: nat): (out: seq<T>)
    requires Fits(|recv|, parts, displs) && r <= |parts|
    ensures |out| == |recv|
  {
    if r == 0 then recv
    else Place(GathervFrom(recv, parts, displs, r - 1), displs[r - 1], parts[r - 1])
  }

  function Gatherv<T>(recv: seq<T>, parts: seq<seq<T>>, displs: seq<nat>): (out: seq<T>)
    requires Fits(|recv|, parts, displs)
    ensures |out| == |recv|
  {
    GathervFrom(recv, parts, displs, |parts|)
  }

  /** Each rank contributes as much as the root expects from it. */
  ghost predicate Contributions<T>(parts: seq<seq<T>>, counts: seq<nat>)
  {
    |parts| == |counts| && forall i :: 0 <= i < |parts| ==> |parts[i]| == counts[i]
  }

  /** An item stays where it was placed when every later contribution lands behind it. */
  lemma {:induction false} PlacedStays<T>(recv: seq<T>, parts: seq<seq<T>>, displs: seq<nat>, r: nat, o: nat, j: nat)
    requires Fits(|recv|, parts, displs) && o < r <= |parts| && j < |parts[o]|
    requires forall i :: o < i < r ==> displs[o] + j < displs[i]
    ensures GathervFrom(recv, parts, displs, r)[displs[o] + j] == parts[o][j]
  {
    if o < r - 1 {
      PlacedStays(recv, parts, displs, r - 1, o, j);
    }
  }

  /** Side by side, item `j` of rank `o` ends up at the displacement of `o` plus `j`,
      whatever the receive buffer held before. */
  lemma GatheredAt<T>(recv: seq<T>, parts: seq<seq<T>>, counts: seq<nat>, displs: seq<nat>, o: nat, j: nat)
    requires Tiles(counts, displs, |recv|) && Contributions(parts, counts)
    requires o < |parts| && j < |parts[o]|
    ensures Gatherv(recv, parts, displs)[displs[o] + j] == parts[o][j]
  {
    forall i | o < i < |parts| ensures displs[o] + j < displs[i] {
      TilesInOrder(counts, displs, |recv|, o, i);
    }
    PlacedStays(recv, parts, displs, |parts|, o, j);
  }

  /** The parts that a scatter of `buf` hands out. */
  ghost predicate Scattered<T>(buf: seq<T>, parts: seq<seq<T>>, counts: seq<nat>, displs: seq<nat>)
    requires Tiles(counts, displs, |buf|)
  {
    && |parts| == |counts|
    && forall r :: 0 <= r < |counts| ==> parts[r] == Scatterv(buf, counts, displs, r)
  }

  lemma RebuiltAt<T>(buf: seq<T>, recv: seq<T>, parts: seq<seq<T>>, counts: seq<nat>, displs: seq<nat>, o: nat, j: nat)
    requires Tiles(counts, displs, |buf|) && |recv| == |buf|
    requires Scattered(buf, parts, counts, displs) && o < |counts| && j < counts[o]
    ensures Gatherv(recv, parts, displs)[displs[o] + j] == buf[displs[o] + j]
  {
    assert parts[o] == Scatterv(buf, counts, displs, o);
    GatheredAt(recv, parts, counts, displs, o, j);
  }

  /** Gathering what was scattered rebuilds the buffer. */
  lemma GatherAfterScatter<T>(buf: seq<T>, recv: seq<T>, parts: seq<seq<T>>, counts: seq<nat>, displs: seq<nat>)
    requires Tiles(counts, displs, |buf|) && |recv| == |buf|
    requires Scattered(buf, parts, counts, displs)
    ensures Gatherv(recv, parts, displs) == buf
  {
    forall k | 0 <= k < |buf| ensures Gatherv(recv, parts, displs)[k] == buf[k] {
      var o := Holder(counts, k);
      assert displs[o] == Prefix(counts, o);
      RebuiltAt(buf, recv, parts, counts, displs, o, k - displs[o]);
    }
  }

  /** Scattering what was gathered gives every rank its own contribution back. */
  lemma ScatterAfterGather<T>(recv: seq<T>, parts: seq<seq<T>>, counts: seq<nat>, displs: seq<nat>)
    requires Tiles(counts, displs, |recv|) && Contributions(parts, counts)
    ensures Scattered(Gatherv(recv, parts, displs), parts, counts, displs)
  {
    var out := Gatherv(recv, parts, displs);
    forall r | 0 <= r < |counts| ensures parts[r] == Scatterv(out, counts, displs, r) {
      var part := Scatterv(out, counts, displs, r);
      forall j | 0 <= j < |part| ensures part[j] == parts[r][j] {
        GatheredAt(recv, parts, counts, displs, r, j);
      }
    }
  }

  /** A root that scatters in place finds its own part at the front of the send buffer
      whatever the buffer holds, precisely when it sends itself nothing or has displacement 0. */
  lemma InPlaceAtFrontIff(counts: seq<nat>, displs: seq<nat>, total: nat, r: nat)
    requires Tiles(counts, displs, total) && r < |counts|
    ensures (forall buf: seq<int> | |buf| == total :: Scatterv(buf, counts, displs, r) == buf[..counts[r]])
            <==> counts[r] == 0 || displs[r] == 0
  {
    if counts[r] > 0 && displs[r] > 0 {
      var buf: seq<int> := seq(total, i => i);
      assert Scatterv(buf, counts, displs, r)[0] == displs[r];
      assert buf[..counts[r]][0] == 0;
    }
  }
}
