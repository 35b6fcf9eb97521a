/** Conservation of free blocks and free inodes, in 64-bit wrapping arithmetic. */
module Accounting {
  import opened Partition
  import opened BlockStore
  import opened FileSession
  import opened NameSpace
  import opened ClientServer

  /** Blocks that the inodes of the table account for. */
  ghost function SumBlocks(files: seq<FileData>): nat {
    if files == [] then 0 else SumBlocks(files[..|files| - 1]) + files[|files| - 1].blocks
  }

  lemma {:induction false} SumBlocksUpdate(files: seq<FileData>, i: nat, f: FileData)
    requires i < |files|
    ensures SumBlocks(files[i := f]) == SumBlocks(files) - files[i].blocks + f.blocks
  {
    var last := |files| - 1;
    if i == last {
      assert files[i := f][..last] == files[..last];
    } else {
      SumBlocksUpdate(files[..last], i, f);
      assert files[i := f][..last] == files[..last][i := f];
    }
  }

  /** Blocks that an opening with truncation forgets without giving them back. */
  ghost function Dropped(sys: System, req: Request): nat
    requires |sys.files| == |sys.ns.nodes|
  {
    if req.Open? && req.truncates && IsFile(sys, req.ino) then sys.files[req.ino].blocks else 0
  }

  /** Free blocks, blocks of the table, and dropped blocks add up to all blocks. */
  ghost predicate BlocksConserved(sys: System, dropped: nat) {
    (sys.bfree + SumBlocks(sys.files) + dropped - TOTAL) % TWO_64 == 0
  }

  /** Free inodes and the table add up to all inodes. */
  ghost predicate INodesConserved(sys: System) {
    (sys.ffree + |sys.files| - TOTAL) % TWO_64 == 0
  }

  lemma WrapShift(x: int, d: int, rest: int)
    requires (x + rest) % TWO_64 == 0
    ensures ((x + d) % TWO_64 + rest - d) % TWO_64 == 0
  {
    var q := (x + d) / TWO_64;
    assert (x + d) % TWO_64 == x + d - q * TWO_64;
    assert ((x + d) % TWO_64 + rest - d) == (x + rest) - q * TWO_64;
  }

  lemma MountedConserved(cfg: Config)
    ensures BlocksConserved(Mounted(cfg), 0) && INodesConserved(Mounted(cfg))
  {
    var files := Mounted(cfg).files;
    assert files[..1] == [EmptyFile] && files[..1][..0] == [];
    assert SumBlocks(files) == SumBlocks(files[..1]) + 0 == 0;
  }

  lemma NamesConserve(sys: System, op: Op, cfg: Config, dropped: nat)
    requires Shaped(sys, cfg) && (op.Forget? ==> op.ino < |sys.ns.nodes|)
    requires BlocksConserved(sys, dropped) && INodesConserved(sys)
    ensures BlocksConserved(StepNames(sys, op, cfg).0, dropped)
    ensures INodesConserved(StepNames(sys, op, cfg).0)
  {
    if Makes(sys.ns, op) {
      if Reclaiming(sys.ns) {
        ReuseConserves(sys, StepNames(sys, op, cfg).0, NextInode(sys.ns), dropped);
      } else {
        GrowthConserves(sys, StepNames(sys, op, cfg).0, dropped);
      }
    }
  }

  /** A reused inode gives its blocks back. */
  lemma ReuseConserves(sys: System, after: System, ino: nat, dropped: nat)
    requires ino < |sys.files| && after.files == sys.files[ino := EmptyFile] && after.ffree == sys.ffree
    requires after.bfree == (sys.bfree + sys.files[ino].blocks) % TWO_64
    requires BlocksConserved(sys, dropped) && INodesConserved(sys)
    ensures BlocksConserved(after, dropped) && INodesConserved(after)
  {
    SumBlocksUpdate(sys.files, ino, EmptyFile);
    WrapShift(sys.bfree, sys.files[ino].blocks, SumBlocks(sys.files) + dropped - TOTAL);
  }

  /** A grown table takes one free inode. */
  lemma GrowthConserves(sys: System, after: System, dropped: nat)
    requires after.files == sys.files + [EmptyFile] && after.bfree == sys.bfree
    requires after.ffree == (sys.ffree - 1) % TWO_64
    requires BlocksConserved(sys, dropped) && INodesConserved(sys)
    ensures BlocksConserved(after, dropped) && INodesConserved(after)
  {
    assert after.files[..|sys.files|] == sys.files;
    WrapShift(sys.ffree, -1, |sys.files| - TOTAL);
  }

  /** Replacing one file moves exactly the difference of its blocks. */
  lemma FileConserves(sys: System, after: System, ino: nat, f: FileData, taken: int, dropped: nat, dropped': nat)
    requires ino < |sys.files| && after.files == sys.files[ino := f]
    requires after.bfree == (sys.bfree - taken) % TWO_64 && after.ffree == sys.ffree
    requires f.blocks == sys.files[ino].blocks + taken - (dropped' - dropped)
    requires BlocksConserved(sys, dropped) && INodesConserved(sys)
    ensures BlocksConserved(after, dropped') && INodesConserved(after)
  {
    SumBlocksUpdate(sys.files, ino, f);
    WrapShift(sys.bfree, -taken, SumBlocks(sys.files) + dropped - TOTAL);
  }

  lemma ServeConserves(sys: System, req: Request, cfg: Config, dropped: nat)
    requires Shaped(sys, cfg) && Ready(sys, req, cfg) && sys.bfree < TWO_64
    requires BlocksConserved(sys, dropped) && INodesConserved(sys)
    ensures var after := Serve(sys, req, cfg).0;
            BlocksConserved(after, dropped + Dropped(sys, req)) && INodesConserved(after) && after.bfree < TWO_64
  {
    if req.Names? {
      NamesConserve(sys, req.op, cfg, dropped);
    } else if !req.Read? && req.ino < |sys.files| {
      FileRequestConserves(sys, req, cfg, dropped);
    }
  }

  lemma FileRequestConserves(sys: System, req: Request, cfg: Config, dropped: nat)
    requires Shaped(sys, cfg) && Ready(sys, req, cfg) && sys.bfree < TWO_64
    requires !req.Names? && !req.Read? && req.ino < |sys.files|
    requires BlocksConserved(sys, dropped) && INodesConserved(sys)
    ensures var after := Serve(sys, req, cfg).0;
            BlocksConserved(after, dropped + Dropped(sys, req)) && INodesConserved(after) && after.bfree < TWO_64
  {
    var after := Serve(sys, req, cfg).0;
    var f := FileRequestEffect(sys, req, cfg);
    assert OneFileChanged(sys, after, req.ino, f, f.blocks - sys.files[req.ino].blocks + Dropped(sys, req));
    FileConserves(sys, after, req.ino, f, f.blocks - sys.files[req.ino].blocks + Dropped(sys, req),
                  dropped, dropped + Dropped(sys, req));
  }

  /** What one file request does to the files and counters. */
  ghost predicate OneFileChanged(sys: System, after: System, ino: nat, f: FileData, taken: int)
    requires ino < |sys.files|
  {
    && after.files == sys.files[ino := f] && after.ffree == sys.ffree
    && after.bfree == (sys.bfree - taken) % TWO_64
  }

  lemma UncountedChange(sys: System, after: System, ino: nat)
    requires ino < |sys.files| && sys.bfree < TWO_64
    requires after.bfree == sys.bfree && after.ffree == sys.ffree && |after.files| == |sys.files|
    requires forall i :: 0 <= i < |sys.files| && i != ino ==> after.files[i] == sys.files[i]
    ensures OneFileChanged(sys, after, ino, after.files[ino], 0)
  {
    assert after.files == sys.files[ino := after.files[ino]];
  }

  lemma OpenEffect(sys: System, ino: nat, truncates: bool, cfg: Config)
    requires Shaped(sys, cfg) && Ready(sys, Open(ino, truncates), cfg) && sys.bfree < TWO_64 && ino < |sys.files|
    ensures var after := FuseOpen(sys, ino, truncates, cfg).0;
            |after.files| == |sys.files| && OneFileChanged(sys, after, ino, after.files[ino], 0)
            && after.files[ino].blocks == sys.files[ino].blocks - Dropped(sys, Open(ino, truncates))
  {
    UncountedChange(sys, FuseOpen(sys, ino, truncates, cfg).0, ino);
  }

  lemma WriteEffect(sys: System, ino: nat, off: nat, data: seq<Byte>, junk: seq<Byte>, cfg: Config)
    requires Shaped(sys, cfg) && Ready(sys, Write(ino, off, data, junk), cfg) && sys.bfree < TWO_64 && ino < |sys.files|
    ensures var after := FuseWrite(sys, ino, off, data, junk, cfg).0;
            |after.files| == |sys.files|
            && OneFileChanged(sys, after, ino, after.files[ino], after.files[ino].blocks - sys.files[ino].blocks)
  {
    if !IsFile(sys, ino) { UncountedChange(sys, sys, ino); }
  }

  lemma FlushEffect(sys: System, ino: nat, addrs: seq<Addr>, cfg: Config)
    requires Shaped(sys, cfg) && Ready(sys, Flush(ino, addrs), cfg) && sys.bfree < TWO_64 && ino < |sys.files|
    ensures var after := FuseFlush(sys, ino, addrs, cfg).0;
            |after.files| == |sys.files| && OneFileChanged(sys, after, ino, after.files[ino], 0)
            && after.files[ino].blocks == sys.files[ino].blocks
  {
    UncountedChange(sys, FuseFlush(sys, ino, addrs, cfg).0, ino);
  }

  lemma ReleaseEffect(sys: System, ino: nat, cfg: Config)
    requires Shaped(sys, cfg) && sys.bfree < TWO_64 && ino < |sys.files|
    ensures var after := FuseRelease(sys, ino, cfg).0;
            |after.files| == |sys.files| && OneFileChanged(sys, after, ino, after.files[ino], 0)
            && after.files[ino].blocks == sys.files[ino].blocks
  {
    UncountedChange(sys, FuseRelease(sys, ino, cfg).0, ino);
  }

  /** A file request changes one file and takes its new blocks from the free ones. */
  lemma FileRequestEffect(sys: System, req: Request, cfg: Config) returns (f: FileData)
    requires Shaped(sys, cfg) && Ready(sys, req, cfg) && sys.bfree < TWO_64
    requires !req.Names? && !req.Read? && req.ino < |sys.files|
    ensures OneFileChanged(sys, Serve(sys, req, cfg).0, req.ino, f,
                           f.blocks - sys.files[req.ino].blocks + Dropped(sys, req))
  {
    f := Serve(sys, req, cfg).0.files[req.ino];
    match req
    case Open(ino, truncates) => OpenEffect(sys, ino, truncates, cfg);
    case Write(ino, off, data, junk) => WriteEffect(sys, ino, off, data, junk, cfg);
    case Flush(ino, addrs) => FlushEffect(sys, ino, addrs, cfg);
    case Release(ino) => ReleaseEffect(sys, ino, cfg);
  }

  /** The state after as much of a run as the code can serve. */
  ghost function ServeAll(sys: System, reqs: seq<Request>, cfg: Config): System
    requires Shaped(sys, cfg)
    decreases |reqs|
  {
    if reqs == [] || !Ready(sys, reqs[0], cfg) then sys
    else ServeAll(Serve(sys, reqs[0], cfg).0, reqs[1..], cfg)
  }

  /** All blocks dropped so far, `dropped` before the run. */
  ghost function DroppedAfter(sys: System, reqs: seq<Request>, cfg: Config, dropped: nat): nat
    requires Shaped(sys, cfg)
    decreases |reqs|
  {
    if reqs == [] || !Ready(sys, reqs[0], cfg) then dropped
    else DroppedAfter(Serve(sys, reqs[0], cfg).0, reqs[1..], cfg, dropped + Dropped(sys, reqs[0]))
  }

  /** Over every run: what is free, what the table uses, and what truncating opens have
      dropped always add up to the totals. */
  lemma {:induction false} Conservation(sys: System, reqs: seq<Request>, cfg: Config, dropped: nat)
    requires Shaped(sys, cfg) && sys.bfree < TWO_64
    requires BlocksConserved(sys, dropped) && INodesConserved(sys)
    ensures BlocksConserved(ServeAll(sys, reqs, cfg), DroppedAfter(sys, reqs, cfg, dropped))
    ensures INodesConserved(ServeAll(sys, reqs, cfg))
    decreases |reqs|
  {
    if reqs != [] && Ready(sys, reqs[0], cfg) {
      ServeConserves(sys, reqs[0], cfg, dropped);
      Conservation(Serve(sys, reqs[0], cfg).0, reqs[1..], cfg, dropped + Dropped(sys, reqs[0]));
    }
  }

  /** From mounting, both sums equal the totals over every run. */
  lemma ConservationFromMount(reqs: seq<Request>, cfg: Config)
    ensures BlocksConserved(ServeAll(Mounted(cfg), reqs, cfg), DroppedAfter(Mounted(cfg), reqs, cfg, 0))
    ensures INodesConserved(ServeAll(Mounted(cfg), reqs, cfg))
  {
    MountedConserved(cfg);
    Conservation(Mounted(cfg), reqs, cfg, 0);
  }

  // ---- when the free blocks are exact ----

  /** The free blocks and the blocks of the table add up to all blocks. */
  ghost predicate FreeBlocksExact(sys: System) { BlocksConserved(sys, 0) }

  lemma DroppedIffInexact(sys: System, dropped: nat)
    requires BlocksConserved(sys, dropped) && dropped < TWO_64
    ensures FreeBlocksExact(sys) <==> dropped == 0
  {
    var x := sys.bfree + SumBlocks(sys.files) - TOTAL;
    assert (x + dropped) % TWO_64 == 0;
  }

  /** The one request that loses blocks: a truncating opening of a file that has some. */
  predicate LosesBlocks(sys: System, req: Request)
    requires |sys.files| == |sys.ns.nodes|
  {
    req.Open? && req.truncates && IsFile(sys, req.ino) && sys.files[req.ino].blocks > 0
  }

  /** From an exact count, a request keeps it exact precisely when it is not a truncating
      opening of a file with blocks. A block count is a 64-bit number. */
  lemma ServeFreeBlocksIff(sys: System, req: Request, cfg: Config)
    requires Shaped(sys, cfg) && Ready(sys, req, cfg) && sys.bfree < TWO_64
    requires FreeBlocksExact(sys) && INodesConserved(sys)
    requires forall i :: 0 <= i < |sys.files| ==> sys.files[i].blocks < TWO_64
    ensures FreeBlocksExact(Serve(sys, req, cfg).0) <==> !LosesBlocks(sys, req)
  {
    ServeConserves(sys, req, cfg, 0);
    DroppedIffInexact(Serve(sys, req, cfg).0, Dropped(sys, req));
  }

  /** No request of the run loses blocks. */
  ghost predicate KeepsBlocks(sys: System, reqs: seq<Request>, cfg: Config)
    requires Shaped(sys, cfg)
    decreases |reqs|
  {
    reqs == [] || !Ready(sys, reqs[0], cfg)
    || (!LosesBlocks(sys, reqs[0]) && KeepsBlocks(Serve(sys, reqs[0], cfg).0, reqs[1..], cfg))
  }

  lemma {:induction false} DroppedOnlyGrows(sys: System, reqs: seq<Request>, cfg: Config, dropped: nat)
    requires Shaped(sys, cfg)
    ensures DroppedAfter(sys, reqs, cfg, dropped) >= dropped
    ensures DroppedAfter(sys, reqs, cfg, dropped) == dropped <==> KeepsBlocks(sys, reqs, cfg)
    decreases |reqs|
  {
    if reqs != [] && Ready(sys, reqs[0], cfg) {
      DroppedOnlyGrows(Serve(sys, reqs[0], cfg).0, reqs[1..], cfg, dropped + Dropped(sys, reqs[0]));
    }
  }

  /** Over every run from mounting that drops fewer than 2^64 blocks, the free blocks end exact
      precisely when no request lost any. */
  lemma FreeBlocksFromMountIff(reqs: seq<Request>, cfg: Config)
    requires DroppedAfter(Mounted(cfg), reqs, cfg, 0) < TWO_64
    ensures FreeBlocksExact(ServeAll(Mounted(cfg), reqs, cfg)) <==> KeepsBlocks(Mounted(cfg), reqs, cfg)
  {
    ConservationFromMount(reqs, cfg);
    DroppedOnlyGrows(Mounted(cfg), reqs, cfg, 0);
    DroppedIffInexact(ServeAll(Mounted(cfg), reqs, cfg), DroppedAfter(Mounted(cfg), reqs, cfg, 0));
  }

  // ---- a run that loses a block ----

  /** After mounting and one create: inode 2 is an empty file. */
  lemma AfterCreate(cfg: Config)
    ensures Ready(Mounted(cfg), Names(Create(1, "f")), cfg)
    ensures var sys := Serve(Mounted(cfg), Names(Create(1, "f")), cfg).0;
            && |sys.files| == 3 && IsFile(sys, 2) && sys.files[2] == EmptyFile
            && Ready(sys, Write(2, 0, [7], []), cfg)
  {
    assert Makes(NameSpace.Init(), Create(1, "f")) && NextInode(NameSpace.Init()) == 2;
    assert AddNew(NameSpace.Init(), 1, "f", Regular).0.nodes[2].kind == Regular;
  }

  /** One byte takes one block. */
  lemma AfterWrite(sys: System, cfg: Config)
    requires Shaped(sys, cfg) && |sys.files| == 3 && IsFile(sys, 2) && sys.files[2] == EmptyFile
    requires Ready(sys, Write(2, 0, [7], []), cfg)
    ensures var after := Serve(sys, Write(2, 0, [7], []), cfg).0;
            && |after.files| == 3 && IsFile(after, 2) && MustStore(after.files[2])
            && after.files[2].size == 1 && after.files[2].blocks == 1 && |after.files[2].buf.value| == cfg.B
  {
    BlockCountUnique(1, cfg.B, 1);
    InvInBounds(EmptyFile, 1, cfg.B);
  }

  lemma AfterFlush(sys: System, addrs: seq<Addr>, cfg: Config)
    requires Shaped(sys, cfg) && |sys.files| == 3 && IsFile(sys, 2) && MustStore(sys.files[2]) && |addrs| == 1
    requires sys.files[2].size == 1 && sys.files[2].blocks == 1 && |sys.files[2].buf.value| == cfg.B
    ensures Ready(sys, Flush(2, addrs), cfg)
    ensures var after := Serve(sys, Flush(2, addrs), cfg).0;
            Dropped(after, Open(2, true)) == 1 && Ready(after, Open(2, true), cfg)
  {
    BlockCountUnique(1, cfg.B, 1);
  }

  lemma DropsLast(sys: System, req: Request, cfg: Config)
    requires Shaped(sys, cfg) && Ready(sys, req, cfg)
    ensures DroppedAfter(sys, [req], cfg, 0) == Dropped(sys, req)
  {
  }

  lemma DropsLater(sys: System, req: Request, rest: seq<Request>, cfg: Config)
    requires Shaped(sys, cfg) && Ready(sys, req, cfg) && !req.Open?
    ensures DroppedAfter(sys, [req] + rest, cfg, 0) == DroppedAfter(Serve(sys, req, cfg).0, rest, cfg, 0)
  {
    assert ([req] + rest)[1..] == rest;
  }

  /** A file created, written with one byte, flushed, and opened with truncation: the free
      blocks no longer add up. */
  lemma TruncationLosesBlock(addrs: seq<Addr>, cfg: Config)
    requires |addrs| == 1
    ensures var reqs := [Names(Create(1, "f"))] + ([Write(2, 0, [7], [])] + ([Flush(2, addrs)] + [Open(2, true)]));
            !FreeBlocksExact(ServeAll(Mounted(cfg), reqs, cfg))
  {
    var open := [Open(2, true)];
    var flush := [Flush(2, addrs)] + open;
    var write := [Write(2, 0, [7], [])] + flush;
    var reqs := [Names(Create(1, "f"))] + write;
    AfterCreate(cfg);
    DropsLater(Mounted(cfg), Names(Create(1, "f")), write, cfg);
    DropsOnceWritten(Serve(Mounted(cfg), Names(Create(1, "f")), cfg).0, addrs, cfg);
    ConservationFromMount(reqs, cfg);
    DroppedIffInexact(ServeAll(Mounted(cfg), reqs, cfg), 1);
  }

  lemma DropsOnceWritten(sys: System, addrs: seq<Addr>, cfg: Config)
    requires Shaped(sys, cfg) && |sys.files| == 3 && IsFile(sys, 2) && sys.files[2] == EmptyFile && |addrs| == 1
    requires Ready(sys, Write(2, 0, [7], []), cfg)
    ensures DroppedAfter(sys, [Write(2, 0, [7], [])] + ([Flush(2, addrs)] + [Open(2, true)]), cfg, 0) == 1
  {
    AfterWrite(sys, cfg);
    var two := Serve(sys, Write(2, 0, [7], []), cfg).0;
    AfterFlush(two, addrs, cfg);
    DropsLater(sys, Write(2, 0, [7], []), [Flush(2, addrs)] + [Open(2, true)], cfg);
    DropsLater(two, Flush(2, addrs), [Open(2, true)], cfg);
    DropsLast(Serve(two, Flush(2, addrs), cfg).0, Open(2, true), cfg);
  }
}
