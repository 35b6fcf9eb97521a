/** The master process of the client-server version: root of every transfer, and the only
    holder of the block directory. */
module Master {
  import opened Partition
  import opened BlockStore
  import opened Blocks
  import opened Cluster

  class MasterProcess {
    const cfg: Config
    const ranks: Ranks
    const blocks: BlockDirectory

    constructor (cfg: Config)
      ensures Valid() && this.cfg == cfg && fresh(ranks) && fresh(blocks)
      ensures ranks.heaps == seq(cfg.p, _ => map[]) && blocks.lists == map[]
    {
      this.cfg := cfg;
      ranks := new Ranks(cfg);
      blocks := new BlockDirectory();
    }

    ghost predicate Valid()
      reads this, ranks, blocks
    {
      ranks.Valid() && ranks.cfg == cfg && StartsInRange(blocks.lists, cfg)
    }

    /** Scatter the buffer, store, gather the addresses at rank 0, and record them. */
    method DAGonFSWrite(buffer: seq<Byte>, inode: nat, fileSize: nat) returns (ghost addrs: seq<Addr>)
      requires Valid()
      requires |buffer| == BlockCount(fileSize, cfg.B) * cfg.B && TransferFits(BlockCount(fileSize, cfg.B), cfg)
      modifies ranks, blocks
      ensures Valid()
      ensures |addrs| == BlockCount(fileSize, cfg.B) && FreshEverywhere(old(ranks.heaps), addrs, cfg)
      ensures ranks.heaps == WriteHeaps(old(ranks.heaps), buffer, addrs, cfg)
      ensures blocks.lists == old(blocks.lists)[inode := Recorded(ListOf(old(blocks.lists), inode), addrs, inode, cfg)]
    {
      var addresses := ranks.DistributedStore(buffer, BlockCount(fileSize, cfg.B));
      blocks.Record(inode, addresses, cfg);
      RecordedInRange(old(blocks.lists), inode, addresses, cfg);
      addrs := addresses;
    }

    /** Scatter the addresses in place at rank 0, load, and gather the bytes. */
    method DAGonFSRead(inode: nat, fileSize: nat, reqSize: nat) returns (readBuff: Option<seq<Byte>>)
      requires Valid() && TransferFits(BlockCount(Wanted(fileSize, reqSize), cfg.B), cfg)
      requires fileSize > 0 ==>
                 Retrievable(ranks.heaps, ListOf(blocks.lists, inode), Wanted(fileSize, reqSize), cfg)
      modifies blocks
      ensures Valid()
      ensures blocks.lists ==
              if fileSize == 0 then old(blocks.lists) else old(blocks.lists)[inode := ListOf(old(blocks.lists), inode)]
      ensures readBuff == ReadResult(ranks.heaps, ListOf(old(blocks.lists), inode), fileSize, reqSize, cfg)
    {
      if fileSize == 0 {
        return None;
      }
      var numberOfBlocks := if reqSize > fileSize then BlockCount(fileSize, cfg.B) else BlockCount(reqSize, cfg.B);
      var addressesToScat := blocks.AddressesToScatter(inode, numberOfBlocks);
      var buf := ranks.DistributedLoad(addressesToScat, true);
      readBuff := Some(buf);
    }
  }
}
