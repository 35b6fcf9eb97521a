/** Prefix sums of a list of counts: the displacements of a scatter or gather. */
module PrefixSums {

  /** Sum of the first `r` counts. */
  function Prefix(counts: seq<nat>, r: nat): nat
    requires r <= |counts|
  {
    if r == 0 then 0 else Prefix(counts, r - 1) + counts[r - 1]
  }

  lemma {:induction false} PrefixMonotone(counts: seq<nat>, r: nat, s: nat)
    requires r <= s <= |counts|
    ensures Prefix(counts, r) <= Prefix(counts, s)
    decreases s
  {
    if r < s { PrefixMonotone(counts, r, s - 1); }
  }

  /** The rank whose interval holds position `k`, searched downwards from rank `r`. */
  function HolderBelow(counts: seq<nat>, k: nat, r: nat): (o: nat)
    requires r <= |counts| && k < Prefix(counts, r)
    ensures o < r && Prefix(counts, o) <= k < Prefix(counts, o + 1)
  {
    if Prefix(counts, r - 1) <= k then r - 1 else HolderBelow(counts, k, r - 1)
  }

  /** The rank whose interval holds position `k`. */
  function Holder(counts: seq<nat>, k: nat): (o: nat)
    requires k < Prefix(counts, |counts|)
    ensures o < |counts| && Prefix(counts, o) <= k < Prefix(counts, o) + counts[o]
  {
    HolderBelow(counts, k, |counts|)
  }

  /** The intervals tile: position `k` lies in the interval of exactly one rank. */
  lemma IntervalsTile(counts: seq<nat>, k: nat, r: nat)
    requires k < Prefix(counts, |counts|) && r < |counts|
    ensures Prefix(counts, r) <= k < Prefix(counts, r) + counts[r] <==> r == Holder(counts, k)
  {
    var o := Holder(counts, k);
    if r < o {
      PrefixMonotone(counts, r + 1, o);
    } else if o < r {
      PrefixMonotone(counts, o + 1, r);
    }
  }

  /** Every count multiplied by a unit size. */
  function Scaled(counts: seq<nat>, unit: nat): (c: seq<nat>)
    ensures |c| == |counts|
    ensures forall r :: 0 <= r < |c| ==> c[r] == counts[r] * unit
  {
    seq(|counts|, r requires 0 <= r < |counts| => counts[r] * unit)
  }

  lemma {:induction false} PrefixScaled(counts: seq<nat>, unit: nat, r: nat)
    requires r <= |counts|
    ensures Prefix(Scaled(counts, unit), r) == Prefix(counts, r) * unit
  {
    if r > 0 {
      PrefixScaled(counts, unit, r - 1);
      Distribute(Prefix(counts, r - 1), counts[r - 1], unit);
    }
  }

  lemma Distribute(x: int, y: int, unit: int)
    ensures (x + y) * unit == x * unit + y * unit
  {
  }
}

/** How a file is cut into blocks, and the blocks into one contiguous share per rank.
    The block size `B` and the number of ranks `p` stay symbolic. */
module Partition {
  import opened PrefixSums

  const MAX_INT32: int := 0x7FFF_FFFF

  /** Number of blocks of `B` bytes that hold `size` bytes. */
  function BlockCount(size: nat, B: nat): (n: nat)
    requires B > 0
    ensures size <= n * B < size + B
    ensures n == 0 <==> size == 0
  {
    assert size == B * (size / B) + size % B;
    size / B + (if size % B > 0 then 1 else 0)
  }

  lemma ProductOrder(x: int, y: int, B: nat)
    requires B > 0
    ensures x < y <==> x * B < y * B
    ensures x < y ==> x * B + B <= y * B
  {
    if x < y {
      assert (x + 1) * B <= y * B;
    } else {
      assert y * B <= x * B;
    }
  }

  /** Only one block count rounds `size` up to a multiple of `B`. */
  lemma BlockCountUnique(size: nat, B: nat, n: nat)
    requires B > 0
    requires size <= n * B < size + B
    ensures n == BlockCount(size, B)
  {
    ProductOrder(n, BlockCount(size, B), B);
    ProductOrder(BlockCount(size, B), n, B);
  }

  /** Number of blocks that rank `r` of `p` ranks gets out of `n`. */
  function Share(n: nat, p: nat, r: nat): nat
    requires p > 0
  {
    n / p + (if r < n % p then 1 else 0)
  }

  /** The shares of all `p` ranks. */
  function Shares(n: nat, p: nat): (s: seq<nat>)
    requires p > 0
    ensures |s| == p
    ensures forall r :: 0 <= r < p ==> s[r] == Share(n, p, r)
  {
    seq(p, r requires 0 <= r < p => Share(n, p, r))
  }

  lemma {:induction false} DisplacementClosedForm(n: nat, p: nat, r: nat)
    requires p > 0 && r <= p
    ensures Prefix(Shares(n, p), r) == r * (n / p) + (if r < n % p then r else n % p)
  {
    if r > 0 {
      DisplacementClosedForm(n, p, r - 1);
      Distribute(r - 1, 1, n / p);
    }
  }

  /** The shares add up to all the blocks. */
  lemma SharesCoverAll(n: nat, p: nat)
    requires p > 0
    ensures Prefix(Shares(n, p), p) == n
  {
    DisplacementClosedForm(n, p, p);
    assert n == p * (n / p) + n % p;
  }

  /** No two ranks differ by more than one block, and earlier ranks never get less. */
  lemma SharesBalanced(n: nat, p: nat, r: nat, s: nat)
    requires r <= s < p
    ensures Shares(n, p)[s] <= Shares(n, p)[r] <= Shares(n, p)[s] + 1
  {
    assert Shares(n, p)[r] == Share(n, p, r);
    assert Shares(n, p)[s] == Share(n, p, s);
  }

  /** Rank whose contiguous share holds block `k` of `n`. */
  function Owner(n: nat, p: nat, k: nat): (o: nat)
    requires p > 0 && k < n
    ensures o < p && Prefix(Shares(n, p), o) <= k < Prefix(Shares(n, p), o) + Shares(n, p)[o]
  {
    SharesCoverAll(n, p);
    Holder(Shares(n, p), k)
  }

  /** The shares tile the blocks: block `k` lies in the share of rank `r` just when `r` owns it. */
  lemma SharesTile(n: nat, p: nat, k: nat, r: nat)
    requires p > 0 && k < n && r < p
    ensures Prefix(Shares(n, p), r) <= k < Prefix(Shares(n, p), r) + Shares(n, p)[r] <==> r == Owner(n, p, k)
  {
    SharesCoverAll(n, p);
    IntervalsTile(Shares(n, p), k, r);
  }

  // ---- 32-bit counts and displacements ----

  /** Conversion to a signed 32-bit integer, two's complement. */
  function ToInt32(x: int): (y: int)
    ensures -MAX_INT32 - 1 <= y <= MAX_INT32
    ensures y == x <==> -MAX_INT32 - 1 <= x <= MAX_INT32
  {
    var m := x % 0x1_0000_0000;
    if m <= MAX_INT32 then m else m - 0x1_0000_0000
  }

  lemma ToInt32Sum(x: int, y: int)
    ensures ToInt32(ToInt32(x) + ToInt32(y)) == ToInt32(x + y)
  {
    var k := (ToInt32(x) - x) / 0x1_0000_0000;
    var l := (ToInt32(y) - y) / 0x1_0000_0000;
    assert ToInt32(x) == x + k * 0x1_0000_0000;
    assert ToInt32(y) == y + l * 0x1_0000_0000;
    assert ToInt32(x) + ToInt32(y) == (x + y) + (k + l) * 0x1_0000_0000;
    assert (ToInt32(x) + ToInt32(y)) % 0x1_0000_0000 == (x + y) % 0x1_0000_0000;
  }

  /** Every count, every displacement and the running offset survive the conversion to `int`. */
  ghost predicate CountsExact(counts: seq<nat>)
  {
    && (forall r: nat | r < |counts| :: ToInt32(counts[r]) == counts[r])
    && (forall r: nat | r <= |counts| :: ToInt32(Prefix(counts, r)) == Prefix(counts, r))
  }

  /** A transfer of `n` items of `unit` bytes has exact counts precisely when it is below 2^31 bytes. */
  lemma CountsExactIff(n: nat, p: nat, unit: nat)
    requires p > 0
    ensures CountsExact(Scaled(Shares(n, p), unit)) <==> n * unit <= MAX_INT32
  {
    var counts := Scaled(Shares(n, p), unit);
    SharesCoverAll(n, p);
    PrefixScaled(Shares(n, p), unit, p);
    assert Prefix(counts, p) == n * unit;
    if n * unit <= MAX_INT32 {
      forall r: nat | r <= p
        ensures Prefix(counts, r) <= MAX_INT32
        ensures r < p ==> counts[r] <= MAX_INT32
      {
        PrefixMonotone(counts, r, p);
        if r < p { PrefixMonotone(counts, r + 1, p); }
      }
    }
  }

  /** Count and displacement of rank `r` as the `int` arrays hold them. */
  ghost function CountAt(n: nat, p: nat, unit: nat, r: nat): int
    requires r < p
  {
    ToInt32(Scaled(Shares(n, p), unit)[r])
  }

  ghost function DisplAt(n: nat, p: nat, unit: nat, r: nat): int
    requires 0 < p && r <= p
  {
    ToInt32(Prefix(Scaled(Shares(n, p), unit), r))
  }

  lemma NextDispl(n: nat, p: nat, unit: nat, r: nat)
    requires r < p
    ensures CountAt(n, p, unit, r) == ToInt32((n / p + (if r < n % p then 1 else 0)) * unit)
    ensures DisplAt(n, p, unit, r + 1) == ToInt32(DisplAt(n, p, unit, r) + CountAt(n, p, unit, r))
  {
    var c := Scaled(Shares(n, p), unit);
    assert c[r] == Share(n, p, r) * unit;
    ToInt32Sum(Prefix(c, r), c[r]);
  }

  /** The loop that fills the count and displacement arrays of one collective. */
  method FillCounts(n: nat, p: nat, unit: nat) returns (counts: array<int>, displs: array<int>, offset: int)
    requires p > 0
    ensures fresh(counts) && fresh(displs) && counts.Length == displs.Length == p
    ensures forall r: nat | r < p :: counts[r] == CountAt(n, p, unit, r) && displs[r] == DisplAt(n, p, unit, r)
    ensures offset == DisplAt(n, p, unit, p)
  {
    counts := new int[p];
    displs := new int[p];
    offset := 0;
    var blockPerProcess := n / p;
    var remainingBlocks := n % p;
    for i := 0 to p
      invariant forall r: nat | r < i :: counts[r] == CountAt(n, p, unit, r) && displs[r] == DisplAt(n, p, unit, r)
      invariant offset == DisplAt(n, p, unit, i)
    {
      NextDispl(n, p, unit, i);
      counts[i] := ToInt32((blockPerProcess + (if i < remainingBlocks then 1 else 0)) * unit);
      displs[i] := offset;
      offset := ToInt32(offset + counts[i]);
    }
  }
}
