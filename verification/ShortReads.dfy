/** Reads of fewer blocks than a file has: the request is shared out among the ranks anew, and
    not as the write that placed the blocks was. */
module ShortReads {
  import opened PrefixSums
  import opened Partition
  import opened Collectives
  import opened BlockStore

  /** The first `m` blocks have the same owners in a transfer of `m` blocks as in one of `n`:
      at most one block is read, or all, there is one rank, no rank has two blocks, or all ranks
      have equally many and just the last block is left out. */
  predicate SameOwners(m: nat, n: nat, p: nat)
    requires p > 0 && m <= n
  {
    m <= 1 || m == n || p == 1 || n <= p || (n % p == 0 && m == n - 1)
  }

  /** Block at which the share of rank `r` begins. */
  function Start(n: nat, p: nat, r: nat): nat
    requires r <= p && p > 0
  {
    Prefix(Shares(n, p), r)
  }

  lemma StartOf(n: nat, p: nat, r: nat, q: nat, rest: nat)
    requires p > 0 && r <= p && n == q * p + rest && rest < p
    ensures Start(n, p, r) == r * q + (if r < rest then r else rest)
  {
    DivisionIs(n, p, q, rest);
    DisplacementClosedForm(n, p, r);
  }

  lemma DivisionIs(n: nat, p: nat, q: nat, rest: nat)
    requires p > 0 && n == q * p + rest && rest < p
    ensures n / p == q && n % p == rest
  {
    var q' := n / p;
    assert n == q' * p + n % p;
    ProductOrder(q, q', p);
    ProductOrder(q', q, p);
  }

  lemma Quotient(n: nat, p: nat) returns (q: nat, rest: nat)
    requires p > 0
    ensures n == q * p + rest && rest < p && rest == n % p
  {
    q, rest := n / p, n % p;
    assert n == p * q + rest;
  }

  /** Block `k` is owned by a rank below `r` precisely when it comes before that rank's share. */
  lemma OwnerBelowIff(n: nat, p: nat, k: nat, r: nat)
    requires p > 0 && k < n && r <= p
    ensures Owner(n, p, k) < r <==> k < Start(n, p, r)
  {
    var o := Owner(n, p, k);
    if o < r {
      PrefixMonotone(Shares(n, p), o + 1, r);
    } else {
      PrefixMonotone(Shares(n, p), r, o);
    }
  }

  /** Where the shares begin at the same blocks, as far as these are read, blocks have the same owners. */
  lemma SameStarts(m: nat, n: nat, p: nat, k: nat)
    requires p > 0 && k < m <= n
    requires forall r: nat | r <= p :: Start(m, p, r) == Start(n, p, r) || (Start(m, p, r) >= m && Start(n, p, r) >= m)
    ensures Owner(m, p, k) == Owner(n, p, k)
  {
    var o, o' := Owner(m, p, k), Owner(n, p, k);
    OwnerBelowIff(m, p, k, o);
    OwnerBelowIff(m, p, k, o + 1);
    OwnerBelowIff(n, p, k, o);
    OwnerBelowIff(n, p, k, o + 1);
    assert Start(m, p, o) == Start(n, p, o);
    assert Start(m, p, o + 1) == Start(n, p, o + 1) || Start(n, p, o + 1) >= m;
  }

  /** A share that begins earlier among the blocks read moves the block it begins with. */
  lemma EarlierStart(m: nat, n: nat, p: nat, r: nat)
    requires p > 0 && m <= n && r <= p && Start(m, p, r) < m && Start(m, p, r) < Start(n, p, r)
    ensures Owner(m, p, Start(m, p, r)) != Owner(n, p, Start(m, p, r))
  {
    OwnerBelowIff(m, p, Start(m, p, r), r);
    OwnerBelowIff(n, p, Start(m, p, r), r);
  }

  lemma SameOwnersSuffices(m: nat, n: nat, p: nat, k: nat)
    requires p > 0 && k < m <= n && SameOwners(m, n, p)
    ensures Owner(m, p, k) == Owner(n, p, k)
  {
    if m < n {
      forall r: nat | r <= p
        ensures Start(m, p, r) == Start(n, p, r) || (Start(m, p, r) >= m && Start(n, p, r) >= m)
      {
        SameStart(m, n, p, r);
      }
      SameStarts(m, n, p, k);
    }
  }

  lemma SameStart(m: nat, n: nat, p: nat, r: nat)
    requires p > 0 && 0 < m < n && SameOwners(m, n, p) && r <= p
    ensures Start(m, p, r) == Start(n, p, r) || (Start(m, p, r) >= m && Start(n, p, r) >= m)
  {
    var q, rest := Quotient(n, p);
    var q', rest' := Quotient(m, p);
    StartOf(n, p, r, q, rest);
    StartOf(m, p, r, q', rest');
    if n <= p {
      SmallStart(n, p, r);
      SmallStart(m, p, r);
    } else if p > 1 && m > 1 {
      AllButOne(n, p, q, r);
    } else if r > 0 {
      FirstStart(m, p);
      FirstStart(n, p);
      PrefixMonotone(Shares(m, p), 1, r);
      PrefixMonotone(Shares(n, p), 1, r);
      if p == 1 {
        SharesCoverAll(m, p);
        SharesCoverAll(n, p);
      }
    }
  }

  lemma FirstStart(n: nat, p: nat)
    requires p > 0 && n > 0
    ensures Start(n, p, 1) >= 1
  {
    var q, rest := Quotient(n, p);
    StartOf(n, p, 1, q, rest);
  }

  lemma SmallStart(n: nat, p: nat, r: nat)
    requires p > 0 && n <= p && r <= p
    ensures Start(n, p, r) == if r < n then r else n
  {
    if n == p {
      StartOf(n, p, r, 1, 0);
    } else {
      StartOf(n, p, r, 0, n);
    }
  }

  lemma AllButOne(n: nat, p: nat, q: nat, r: nat)
    requires p > 1 && n == q * p > p && r <= p
    ensures Start(n - 1, p, r) == Start(n, p, r) || (Start(n - 1, p, r) >= n - 1 && Start(n, p, r) >= n - 1)
  {
    assert (q - 1) * p + p == q * p;
    StartOf(n, p, r, q, 0);
    StartOf(n - 1, p, r, q - 1, p - 1);
    if r < p {
      assert r * (q - 1) + r == r * q;
    } else {
      SharesCoverAll(n, p);
      SharesCoverAll(n - 1, p);
    }
  }

  /** In every other case some block has a different owner. */
  lemma OtherOwner(m: nat, n: nat, p: nat) returns (k: nat)
    requires p > 0 && m <= n && !SameOwners(m, n, p)
    ensures k < m && Owner(m, p, k) != Owner(n, p, k)
  {
    var q, rest := Quotient(n, p);
    var q', rest' := Quotient(m, p);
    StartOf(n, p, 1, q, rest);
    StartOf(m, p, 1, q', rest');
    FewerPerRank(m, n, p, q', rest', q, rest);
    if Start(m, p, 1) < Start(n, p, 1) {
      k := Start(m, p, 1);
      EarlierStart(m, n, p, 1);
    } else {
      k := Start(m, p, p - 1);
      LastStart(m, n, p, q', rest', q, rest);
      EarlierStart(m, n, p, p - 1);
    }
  }

  lemma FewerPerRank(m: nat, n: nat, p: nat, q': nat, rest': nat, q: nat, rest: nat)
    requires p > 1 && 1 < m < n && n == q * p + rest && rest < p && m == q' * p + rest' && rest' < p
    ensures q' <= q && (q' == q ==> rest' < rest)
    ensures q' + (if rest' > 0 then 1 else 0) < m
  {
    ProductOrder(q, q', p);
    assert q' * p >= q' * 2;
  }

  /** With as many blocks on rank 0, the share of the last rank begins earlier. */
  lemma LastStart(m: nat, n: nat, p: nat, q': nat, rest': nat, q: nat, rest: nat)
    requires p > 1 && 1 < m < n && n == q * p + rest && rest < p && m == q' * p + rest' && rest' < p
    requires n > p && !(rest == 0 && m == n - 1)
    requires q' + (if rest' > 0 then 1 else 0) >= q + (if rest > 0 then 1 else 0)
    requires q' <= q && (q' == q ==> rest' < rest)
    ensures Start(m, p, p - 1) < m && Start(m, p, p - 1) < Start(n, p, p - 1)
  {
    StartOf(n, p, p - 1, q, rest);
    StartOf(m, p, p - 1, q', rest');
    assert (p - 1) * q == q * p - q && (p - 1) * q' == q' * p - q';
    assert q >= 1;
    if q' < q { assert q' == q - 1 && rest == 0 && rest' > 0 && q' * p == q * p - p; }
  }

  /** The condition in full: it says of each block read that its owner is the same. */
  lemma SameOwnersIff(m: nat, n: nat, p: nat)
    requires p > 0 && m <= n
    ensures SameOwners(m, n, p) <==> forall k: nat | k < m :: Owner(m, p, k) == Owner(n, p, k)
  {
    if SameOwners(m, n, p) {
      forall k: nat | k < m ensures Owner(m, p, k) == Owner(n, p, k) {
        SameOwnersSuffices(m, n, p, k);
      }
    } else {
      var k := OtherOwner(m, n, p);
    }
  }

  /** An address is in use on no rank but the one that allocated it. */
  ghost predicate OwnersOnly(heaps: seq<Heap>, addrs: seq<Addr>, cfg: Config)
    requires |heaps| == cfg.p
  {
    forall k: nat, r: nat | k < |addrs| && r < cfg.p && addrs[k] in heaps[r] :: r == Owner(|addrs|, cfg.p, k)
  }

  /** Block `k` of `buf` is behind address `k` on the heap of rank `r`. */
  ghost predicate Holds(heap: Heap, addrs: seq<Addr>, buf: seq<Byte>, B: nat, k: nat)
    requires k < |addrs|
  {
    addrs[k] in heap && 0 <= k * B <= k * B + B <= |buf| && heap[addrs[k]] == buf[k * B..k * B + B]
  }

  /** All but the last block of a buffer. */
  lemma FrontHolds(heap: Heap, addrs: seq<Addr>, local: seq<Byte>, B: nat, m: nat, k: nat)
    requires |local| == |addrs| * B && addrs != [] && m == (|addrs| - 1) * B && m + B == |local|
    requires k < |addrs| - 1 && Holds(heap, addrs, local, B, k)
    ensures Holds(heap, addrs[..|addrs| - 1], local[..m], B, k)
  {
    RowBefore(k, |addrs| - 1, B);
    SliceOfSlice(local, 0, m, k * B, k * B + B);
  }

  lemma {:induction false} LoadBlocks(heap: Heap, addrs: seq<Addr>, local: seq<Byte>, B: nat)
    requires |local| == |addrs| * B
    requires forall i: nat | i < |addrs| :: Holds(heap, addrs, local, B, i)
    ensures Known(heap, addrs, B) && Load(heap, addrs, B) == local
  {
    if addrs != [] {
      var i := |addrs| - 1;
      var m := i * B;
      assert Holds(heap, addrs, local, B, i);
      assert m + B == |local| by { assert |addrs| == i + 1; }
      forall k: nat | k < i ensures Holds(heap, addrs[..i], local[..m], B, k) {
        FrontHolds(heap, addrs, local, B, m, k);
      }
      LoadBlocks(heap, addrs[..i], local[..m], B);
      assert local[..m] + local[m..] == local;
    } else {
      assert local == [];
    }
  }

  lemma AddressesOfRank(addrs: seq<Addr>, cfg: Config, r: nat)
    requires r < cfg.p
    ensures var d, s := Prefix(Shares(|addrs|, cfg.p), r), Shares(|addrs|, cfg.p)[r];
            d + s <= |addrs| && PartOf(addrs, |addrs|, cfg, 1, r) == addrs[d..d + s]
  {
    PartIndex(addrs, |addrs|, cfg, 1, r);
  }

  lemma OwnerOf(n: nat, p: nat, r: nat, k: nat)
    requires r < p
    requires Prefix(Shares(n, p), r) <= k < Prefix(Shares(n, p), r) + Shares(n, p)[r]
    ensures k < n && Owner(n, p, k) == r
  {
    SharesCoverAll(n, p);
    IntervalEnds(Shares(n, p), r);
    assert k < n;
    SharesTile(n, p, k, r);
  }

  /** A rank that holds all blocks of its share loads its part of the buffer. */
  lemma LoadsPart(heap: Heap, addrs: seq<Addr>, buf: seq<Byte>, cfg: Config, r: nat)
    requires |buf| == |addrs| * cfg.B && r < cfg.p
    requires forall k: nat | k < |addrs| && Owner(|addrs|, cfg.p, k) == r :: Holds(heap, addrs, buf, cfg.B, k)
    ensures var own := PartOf(addrs, |addrs|, cfg, 1, r);
            Known(heap, own, cfg.B) && Load(heap, own, cfg.B) == PartOf(buf, |addrs|, cfg, cfg.B, r)
  {
    var n, B := |addrs|, cfg.B;
    var own, part := PartOf(addrs, n, cfg, 1, r), PartOf(buf, n, cfg, B, r);
    var d, s := Prefix(Shares(n, cfg.p), r), Shares(n, cfg.p)[r];
    PartIndex(buf, n, cfg, B, r);
    AddressesOfRank(addrs, cfg, r);
    forall i: nat | i < |own| ensures Holds(heap, own, part, B, i) {
      OwnerOf(n, cfg.p, r, d + i);
      assert own[i] == addrs[d + i];
      assert Holds(heap, addrs, buf, B, d + i);
      BlockOfPart(buf, part, d, s, B, i);
    }
    LoadBlocks(heap, own, part, B);
  }

  /** When every rank holds the blocks of its share, a read returns the buffer. */
  lemma ReadsBuffer(heaps: seq<Heap>, addrs: seq<Addr>, buf: seq<Byte>, cfg: Config)
    requires |heaps| == cfg.p && |buf| == |addrs| * cfg.B
    requires forall k: nat | k < |addrs| :: Holds(heaps[Owner(|addrs|, cfg.p, k)], addrs, buf, cfg.B, k)
    ensures Local(heaps, addrs, cfg) && ReadBytes(heaps, addrs, cfg) == buf
  {
    var n := |addrs|;
    forall r: nat | r < cfg.p
      ensures Known(heaps[r], PartOf(addrs, n, cfg, 1, r), cfg.B)
      ensures Load(heaps[r], PartOf(addrs, n, cfg, 1, r), cfg.B) == PartOf(buf, n, cfg, cfg.B, r)
    {
      LoadsPart(heaps[r], addrs, buf, cfg, r);
    }
    CountsTile(n, cfg, cfg.B);
    GatherAfterScatter(buf, seq(n * cfg.B, _ => 0), LoadParts(heaps, addrs, cfg),
                       Counts(n, cfg, cfg.B), Displs(Counts(n, cfg, cfg.B)));
  }

  /** An address that a short read can use lies with the owner that the short read gives it. */
  lemma LocalNamesOwner(heaps: seq<Heap>, addrs: seq<Addr>, cfg: Config, k: nat)
    requires |heaps| == cfg.p && Local(heaps, addrs, cfg) && k < |addrs|
    ensures addrs[k] in heaps[Owner(|addrs|, cfg.p, k)]
  {
    var r := Owner(|addrs|, cfg.p, k);
    var own := PartOf(addrs, |addrs|, cfg, 1, r);
    AddressesOfRank(addrs, cfg, r);
    assert Known(heaps[r], own, cfg.B);
    assert own[k - Prefix(Shares(|addrs|, cfg.p), r)] == addrs[k];
  }

  lemma FirstBlocks(heaps: seq<Heap>, buf: seq<Byte>, addrs: seq<Addr>, m: nat, cfg: Config, k: nat)
    requires |heaps| == cfg.p && |buf| == |addrs| * cfg.B && k < m <= |addrs|
    requires FreshEverywhere(heaps, addrs, cfg)
    ensures 0 <= m * cfg.B <= |buf|
    ensures Holds(WriteHeaps(heaps, buf, addrs, cfg)[Owner(|addrs|, cfg.p, k)], addrs[..m], buf[..m * cfg.B], cfg.B, k)
  {
    BlockOnItsOwner(heaps, buf, addrs, cfg, k);
    if m < |addrs| { RowBefore(m, |addrs|, cfg.B); }
    RowBefore(k, m, cfg.B);
    SliceOfSlice(buf, 0, m * cfg.B, k * cfg.B, k * cfg.B + cfg.B);
  }

  /** After a write of `|addrs|` blocks, a read of the first `m` finds each of its addresses on
      the rank it sends it to if and only if the two transfers give these blocks the same owners;
      it then returns just these blocks. */
  lemma ShortReadIff(heaps: seq<Heap>, buf: seq<Byte>, addrs: seq<Addr>, m: nat, cfg: Config)
    requires |heaps| == cfg.p && |buf| == |addrs| * cfg.B && m <= |addrs|
    requires FreshEverywhere(heaps, addrs, cfg) && OwnersOnly(WriteHeaps(heaps, buf, addrs, cfg), addrs, cfg)
    ensures Local(WriteHeaps(heaps, buf, addrs, cfg), addrs[..m], cfg) <==> SameOwners(m, |addrs|, cfg.p)
    ensures 0 <= m * cfg.B <= |buf|
    ensures SameOwners(m, |addrs|, cfg.p) ==>
              ReadBytes(WriteHeaps(heaps, buf, addrs, cfg), addrs[..m], cfg) == buf[..m * cfg.B]
  {
    var n, after := |addrs|, WriteHeaps(heaps, buf, addrs, cfg);
    SameOwnersIff(m, n, cfg.p);
    if m < n { RowBefore(m, n, cfg.B); }
    if SameOwners(m, n, cfg.p) {
      forall k: nat | k < m ensures Holds(after[Owner(m, cfg.p, k)], addrs[..m], buf[..m * cfg.B], cfg.B, k) {
        FirstBlocks(heaps, buf, addrs, m, cfg, k);
      }
      ReadsBuffer(after, addrs[..m], buf[..m * cfg.B], cfg);
    } else if Local(after, addrs[..m], cfg) {
      var k: nat :| k < m && Owner(m, cfg.p, k) != Owner(n, cfg.p, k);
      LocalNamesOwner(after, addrs[..m], cfg, k);
      assert false;
    }
  }

  /** After a write of four blocks on two ranks, a read of the first two never works: block 1
      is with rank 0, and its address goes to rank 1. */
  lemma HalfReadMisses(heaps: seq<Heap>, buf: seq<Byte>, addrs: seq<Addr>, cfg: Config)
    requires cfg.p == 2 && |heaps| == 2 && |addrs| == 4 && |buf| == |addrs| * cfg.B
    requires FreshEverywhere(heaps, addrs, cfg) && OwnersOnly(WriteHeaps(heaps, buf, addrs, cfg), addrs, cfg)
    ensures !Local(WriteHeaps(heaps, buf, addrs, cfg), addrs[..2], cfg)
  {
    ShortReadIff(heaps, buf, addrs, 2, cfg);
  }
}
