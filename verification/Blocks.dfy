/** The per-inode block directory: which address each block of a file has. */
module Blocks {
  import opened Partition
  import opened BlockStore

  datatype Option<+T> = None | Some(value: T)

  datatype DataBlock = DataBlock(inode: nat, address: Option<Addr>, rank: nat, number: nat, offset: nat)

  type BlockLists = map<nat, seq<DataBlock>>

  /** A lookup in the directory creates an empty list, so an absent list counts as empty. */
  function ListOf(dir: BlockLists, inode: nat): seq<DataBlock> {
    if inode in dir then dir[inode] else []
  }

  /** Rank that a batch of new blocks starts with: the last rank in the list. */
  function LastRank(list: seq<DataBlock>): nat {
    if |list| == 0 then 0 else list[|list| - 1].rank
  }

  /** A list extended by a batch of `m` blocks without data, ranks assigned round-robin. */
  function Extended(list: seq<DataBlock>, m: nat, inode: nat, cfg: Config): (out: seq<DataBlock>)
    ensures |out| == |list| + m
  {
    list + seq(m, j requires 0 <= j < m =>
      DataBlock(inode, None, (LastRank(list) + j) % cfg.p, |list| + j, (|list| + j) * cfg.B))
  }

  /** The first `|addrs|` blocks of a list pointed at the given addresses. */
  function WithAddresses(list: seq<DataBlock>, addrs: seq<Addr>): (out: seq<DataBlock>)
    requires |addrs| <= |list|
    ensures |out| == |list|
  {
    seq(|list|, k requires 0 <= k < |list| =>
      if k < |addrs| then list[k].(address := Some(addrs[k])) else list[k])
  }

  /** The list after a write of `|addrs|` blocks. */
  function Recorded(list: seq<DataBlock>, addrs: seq<Addr>, inode: nat, cfg: Config): (out: seq<DataBlock>)
  {
    WithAddresses(if |addrs| > |list| then Extended(list, |addrs| - |list|, inode, cfg) else list, addrs)
  }

  /** The addresses that a read of `n` blocks takes from the list. */
  ghost predicate HasAddresses(list: seq<DataBlock>, n: nat) {
    n <= |list| && forall k :: 0 <= k < n ==> list[k].address.Some?
  }

  function AddressesOf(list: seq<DataBlock>, n: nat): (addrs: seq<Addr>)
    requires HasAddresses(list, n)
    ensures |addrs| == n
  {
    seq(n, k requires 0 <= k < n => list[k].address.value)
  }

  /** A read of as many blocks as the last write finds exactly the addresses of that write,
      however long the list has grown: older entries behind them are not touched. */
  lemma AddressesAfterRecording(list: seq<DataBlock>, addrs: seq<Addr>, inode: nat, cfg: Config)
    ensures HasAddresses(Recorded(list, addrs, inode, cfg), |addrs|)
    ensures AddressesOf(Recorded(list, addrs, inode, cfg), |addrs|) == addrs
  {
  }

  // ---- reading through a list ----

  /** Bytes that a read covers: what is asked for, but never more than the file has. */
  function Wanted(fileSize: nat, reqSize: nat): nat {
    if reqSize > fileSize then fileSize else reqSize
  }

  /** The list has an address for each block that holds `size` bytes, known to the rank that
      a read of so many blocks hands it to. */
  ghost predicate Retrievable(heaps: seq<Heap>, list: seq<DataBlock>, size: nat, cfg: Config)
    requires |heaps| == cfg.p
  {
    var n := BlockCount(size, cfg.B);
    HasAddresses(list, n) && Local(heaps, AddressesOf(list, n), cfg)
  }

  function Retrieved(heaps: seq<Heap>, list: seq<DataBlock>, size: nat, cfg: Config): (buf: seq<Byte>)
    requires |heaps| == cfg.p && Retrievable(heaps, list, size, cfg)
    ensures |buf| == BlockCount(size, cfg.B) * cfg.B
  {
    ReadBytes(heaps, AddressesOf(list, BlockCount(size, cfg.B)), cfg)
  }

  /** The result of a read: no buffer for an empty file. */
  function ReadResult(heaps: seq<Heap>, list: seq<DataBlock>, fileSize: nat, reqSize: nat, cfg: Config)
    : Option<seq<Byte>>
    requires |heaps| == cfg.p
    requires fileSize > 0 ==> Retrievable(heaps, list, Wanted(fileSize, reqSize), cfg)
  {
    if fileSize == 0 then None else Some(Retrieved(heaps, list, Wanted(fileSize, reqSize), cfg))
  }

  // ---- shape of a list ----

  /** Entry `k` has number `k`, byte offset `k * B`, and a rank that exists. */
  ghost predicate WellNumbered(list: seq<DataBlock>, inode: nat, cfg: Config) {
    forall k :: 0 <= k < |list| ==>
                  && list[k].inode == inode
                  && list[k].number == k
                  && list[k].offset == k * cfg.B
                  && list[k].rank < cfg.p
  }

  /** The list after a history of writes with the given addresses, oldest first. */
  function History(writes: seq<seq<Addr>>, inode: nat, cfg: Config): seq<DataBlock> {
    if writes == [] then []
    else Recorded(History(writes[..|writes| - 1], inode, cfg), writes[|writes| - 1], inode, cfg)
  }

  function MaxBlocks(writes: seq<seq<Addr>>): nat {
    if writes == [] then 0
    else
      var before := MaxBlocks(writes[..|writes| - 1]);
      if |writes[|writes| - 1]| > before then |writes[|writes| - 1]| else before
  }

  /** After any history of writes the list is as long as the longest write, every entry is
      well numbered, and the front holds the addresses of the last write. */
  lemma {:induction false} HistoryShape(writes: seq<seq<Addr>>, inode: nat, cfg: Config)
    ensures |History(writes, inode, cfg)| == MaxBlocks(writes)
    ensures WellNumbered(History(writes, inode, cfg), inode, cfg)
    ensures writes != [] ==>
              var last := writes[|writes| - 1];
              && HasAddresses(History(writes, inode, cfg), |last|)
              && AddressesOf(History(writes, inode, cfg), |last|) == last
  {
    if writes != [] {
      var before, last := History(writes[..|writes| - 1], inode, cfg), writes[|writes| - 1];
      HistoryShape(writes[..|writes| - 1], inode, cfg);
      RecordedWellNumbered(before, last, inode, cfg);
      AddressesAfterRecording(before, last, inode, cfg);
    }
  }

  lemma RecordedWellNumbered(list: seq<DataBlock>, addrs: seq<Addr>, inode: nat, cfg: Config)
    requires WellNumbered(list, inode, cfg)
    ensures WellNumbered(Recorded(list, addrs, inode, cfg), inode, cfg)
  {
  }

  /** Inside one batch the ranks cycle through all ranks, and the batch starts by repeating
      the rank that the list ended with. */
  lemma BatchRanks(list: seq<DataBlock>, m: nat, inode: nat, cfg: Config, j: nat)
    requires WellNumbered(list, inode, cfg) && j < m
    ensures var out := Extended(list, m, inode, cfg);
            && (j == 0 ==> out[|list|].rank == LastRank(list))
            && (j + 1 < m ==>
                  out[|list| + j + 1].rank == if out[|list| + j].rank + 1 == cfg.p then 0 else out[|list| + j].rank + 1)
  {
    NextRank(LastRank(list) + j, cfg.p);
    ModUnique(LastRank(list), cfg.p, 0, LastRank(list));
  }

  lemma ProductBounds(p: int, d: int)
    requires p >= 0
    ensures d >= 1 ==> p * d >= p
    ensures d <= -1 ==> p * d <= -p
  {
    if d >= 1 {
      assert p * d == p + p * (d - 1);
    } else if d <= -1 {
      assert p * d == p * (d + 1) - p;
    }
  }

  lemma ModUnique(x: int, p: nat, q: int, r: nat)
    requires x == p * q + r && r < p
    ensures x % p == r
  {
    var q' := x / p;
    assert x == p * q' + x % p;
    assert p * (q - q') == p * q - p * q';
    ProductBounds(p, q - q');
  }

  /** One step of the wrapping rank counter. */
  lemma NextRank(x: nat, p: nat)
    requires p > 0
    ensures (x + 1) % p == if x % p + 1 == p then 0 else x % p + 1
  {
    var q, r := x / p, x % p;
    assert x == p * q + r;
    if r + 1 == p {
      assert p * (q + 1) == p * q + p;
      ModUnique(x + 1, p, q + 1, 0);
    } else {
      ModUnique(x + 1, p, q, r + 1);
    }
  }

  /** The rank that the next batch of a list starts with exists. */
  ghost predicate StartsInRange(lists: BlockLists, cfg: Config) {
    forall inode :: inode in lists ==> LastRank(lists[inode]) < cfg.p
  }

  lemma RecordedInRange(lists: BlockLists, inode: nat, addrs: seq<Addr>, cfg: Config)
    requires StartsInRange(lists, cfg)
    ensures StartsInRange(lists[inode := Recorded(ListOf(lists, inode), addrs, inode, cfg)], cfg)
  {
    var list := ListOf(lists, inode);
    assert LastRank(Extended(list, |addrs|, inode, cfg)) < cfg.p;
    assert LastRank(Recorded(list, addrs, inode, cfg)) < cfg.p;
  }

  /** The directory of one process. */
  class BlockDirectory {
    var lists: BlockLists

    constructor ()
      ensures lists == map[]
    {
      lists := map[];
    }

    method CreateEmptyBlockList(inode: nat)
      modifies this
      ensures lists == old(lists)[inode := ListOf(old(lists), inode)]
    {
      if inode !in lists {
        lists := lists[inode := []];
      }
    }

    /** Answers the opposite of its name. */
    method BlockListExists(inode: nat) returns (answer: bool)
      ensures answer <==> inode !in lists
    {
      answer := inode !in lists;
    }

    /** The subscript operator: inserts an empty list for an inode without one. */
    method GetList(inode: nat) returns (list: seq<DataBlock>)
      modifies this
      ensures list == ListOf(old(lists), inode) && lists == old(lists)[inode := list]
    {
      if inode !in lists {
        lists := lists[inode := []];
      }
      list := lists[inode];
    }

    /** The loop that fills the scatter buffer of a read with the addresses of the first blocks. */
    method AddressesToScatter(inode: nat, n: nat) returns (addresses: seq<Addr>)
      requires HasAddresses(ListOf(lists, inode), n)
      modifies this
      ensures lists == old(lists)[inode := ListOf(old(lists), inode)]
      ensures addresses == AddressesOf(ListOf(old(lists), inode), n)
    {
      var list := GetList(inode);
      addresses := [];
      for i := 0 to n
        invariant lists == old(lists)[inode := list] && |addresses| == i
        invariant forall k :: 0 <= k < i ==> addresses[k] == list[k].address.value
      {
        addresses := addresses + [list[i].address.value];
      }
    }

    /** Extends a list by `m` blocks, assigning ranks with a counter that wraps at `p`. */
    method AddDataBlocks(list: seq<DataBlock>, m: nat, inode: nat, cfg: Config) returns (out: seq<DataBlock>)
      requires LastRank(list) < cfg.p
      ensures out == Extended(list, m, inode, cfg)
    {
      out := list;
      var rank := LastRank(list);
      LastRankMod(list, cfg);
      for j := 0 to m
        invariant out == Extended(list, j, inode, cfg)
        invariant rank == (LastRank(list) + j) % cfg.p
      {
        out := out + [DataBlock(inode, None, rank, |list| + j, (|list| + j) * cfg.B)];
        NextRank(LastRank(list) + j, cfg.p);
        rank := rank + 1;
        if rank == cfg.p { rank := 0; }
      }
    }

    lemma LastRankMod(list: seq<DataBlock>, cfg: Config)
      requires LastRank(list) < cfg.p
      ensures LastRank(list) % cfg.p == LastRank(list)
    {
      ModUnique(LastRank(list), cfg.p, 0, LastRank(list));
    }

    /** Points the first blocks of the list at the gathered addresses. */
    method SetData(list: seq<DataBlock>, addrs: seq<Addr>) returns (out: seq<DataBlock>)
      requires |addrs| <= |list|
      ensures out == WithAddresses(list, addrs)
    {
      out := list;
      for k := 0 to |addrs|
        invariant |out| == |list|
        invariant forall i :: 0 <= i < |list| ==>
                                out[i] == if i < k then list[i].(address := Some(addrs[i])) else list[i]
      {
        out := out[k := out[k].(address := Some(addrs[k]))];
      }
    }

    /** The end of a write: the gathered addresses go into the list of the inode. */
    method Record(inode: nat, addrs: seq<Addr>, cfg: Config)
      requires LastRank(ListOf(lists, inode)) < cfg.p
      modifies this
      ensures lists == old(lists)[inode := Recorded(ListOf(old(lists), inode), addrs, inode, cfg)]
    {
      var absent := BlockListExists(inode);
      if !absent {
        CreateEmptyBlockList(inode);
      }
      var list := GetList(inode);
      var additionBlocks := |addrs| - |list|;
      if additionBlocks > 0 {
        list := AddDataBlocks(list, additionBlocks, inode, cfg);
      }
      list := SetData(list, addrs);
      lists := lists[inode := list];
    }
  }
}
