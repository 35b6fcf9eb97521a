/** The client-server file system as one value: the inode table, the file buffers, the
    heaps of all ranks, and the master's block directory. */
module ClientServer {
  import opened Partition
  import opened BlockStore
  import opened Blocks
  import opened FileSession
  import opened NameSpace

  /** `files[i]` is the file part of inode `i`; `bfree` and `ffree` count free blocks and inodes. */
  datatype System = System(ns: NameState, files: seq<FileData>, heaps: seq<Heap>, lists: BlockLists,
                           bfree: nat, ffree: nat)

  /** Total number of blocks and of inodes: all bits set. */
  const TOTAL: nat := TWO_64 - 1

  datatype Request =
    | Names(op: Op)
    | Open(ino: nat, truncates: bool)
    | Read(ino: nat, off: nat, count: nat)
    | Write(ino: nat, off: nat, data: seq<Byte>, junk: seq<Byte>)
    | Flush(ino: nat, addrs: seq<Addr>)
    | Release(ino: nat)

  datatype Response =
    | Replies(replies: seq<Reply>)
    | Failed(code: Errno)
    | Data(bytes: seq<Byte>)
    | Written(count: nat)
    | Done

  predicate IsFile(sys: System, i: nat) {
    i < |sys.ns.nodes| && sys.ns.nodes[i].kind == Regular
  }

  ghost predicate Shaped(sys: System, cfg: Config) {
    Closed(sys.ns) && |sys.files| == |sys.ns.nodes| && |sys.heaps| == cfg.p
  }

  /** After mounting: two inodes have been registered. */
  function Mounted(cfg: Config): (sys: System)
    ensures Shaped(sys, cfg)
  {
    System(NameSpace.Init(), [EmptyFile, EmptyFile], seq(cfg.p, _ => map[]), map[], TOTAL, (TOTAL - 2) % TWO_64)
  }

  /** A namespace request: a new inode starts without blocks; a reused one gives its blocks
      back to the free count; a grown table takes one inode from it. */
  function StepNames(sys: System, op: Op, cfg: Config): (System, seq<Reply>)
    requires Shaped(sys, cfg) && (op.Forget? ==> op.ino < |sys.ns.nodes|)
    ensures Shaped(StepNames(sys, op, cfg).0, cfg)
  {
    TableGrowth(sys.ns, op);
    var (ns, replies) := Step(sys.ns, op);
    if Makes(sys.ns, op) then
      var ino := NextInode(sys.ns);
      var lists := if op.Create? then sys.lists[ino := ListOf(sys.lists, ino)] else sys.lists;
      if Reclaiming(sys.ns) then
        (sys.(ns := ns, lists := lists, files := sys.files[ino := EmptyFile],
              bfree := (sys.bfree + sys.files[ino].blocks) % TWO_64), replies)
      else
        (sys.(ns := ns, lists := lists, files := sys.files + [EmptyFile],
              ffree := (sys.ffree - 1) % TWO_64), replies)
    else (sys.(ns := ns), replies)
  }

  function WithFile(sys: System, ino: nat, f: FileData): System
    requires ino < |sys.files|
  {
    sys.(files := sys.files[ino := f])
  }

  /** The file's list gives access to all `size` bytes. */
  ghost predicate Stored(sys: System, ino: nat, size: nat, cfg: Config)
    requires |sys.heaps| == cfg.p
  {
    Retrievable(sys.heaps, ListOf(sys.lists, ino), size, cfg)
  }

  function StoredBytes(sys: System, ino: nat, size: nat, cfg: Config): (buf: seq<Byte>)
    requires |sys.heaps| == cfg.p && Stored(sys, ino, size, cfg)
    ensures |buf| == BlockCount(size, cfg.B) * cfg.B
  {
    Retrieved(sys.heaps, ListOf(sys.lists, ino), size, cfg)
  }

  /** The load on open: nothing for an empty file, otherwise all its blocks. */
  function LoadFile(sys: System, ino: nat, cfg: Config): Option<seq<Byte>>
    requires |sys.heaps| == cfg.p && ino < |sys.files|
    requires sys.files[ino].size > 0 ==> Stored(sys, ino, sys.files[ino].size, cfg)
  {
    ReadResult(sys.heaps, ListOf(sys.lists, ino), sys.files[ino].size, sys.files[ino].size, cfg)
  }

  /** The distributed write of a flush. */
  function StoreFile(sys: System, ino: nat, buf: seq<Byte>, addrs: seq<Addr>, cfg: Config): System
    requires |sys.heaps| == cfg.p && |buf| == |addrs| * cfg.B
  {
    sys.(heaps := WriteHeaps(sys.heaps, buf, addrs, cfg),
         lists := sys.lists[ino := Recorded(ListOf(sys.lists, ino), addrs, ino, cfg)])
  }

  predicate MustStore(f: FileData) { f.buf.Some? && f.waiting }

  /** What the code relies on without checking it. */
  ghost predicate Ready(sys: System, req: Request, cfg: Config)
    requires Shaped(sys, cfg)
  {
    match req
    case Names(op) => op.Forget? ==> op.ino < |sys.ns.nodes|
    case Open(ino, truncates) =>
      IsFile(sys, ino) && !truncates && sys.files[ino].size > 0 ==> Stored(sys, ino, sys.files[ino].size, cfg)
    case Read(ino, off, count) =>
      IsFile(sys, ino) ==> BufferInv(sys.files[ino], cfg.B) && off <= sys.files[ino].size
    case Write(ino, off, data, junk) =>
      IsFile(sys, ino) ==> BufferInv(sys.files[ino], cfg.B) && off <= sys.files[ino].size
    case Flush(ino, addrs) =>
      ino < |sys.files| ==>
        IsFile(sys, ino) &&
        (MustStore(sys.files[ino]) ==>
           |addrs| == BlockCount(sys.files[ino].size, cfg.B) && |sys.files[ino].buf.value| == |addrs| * cfg.B)
    case Release(ino) => true
  }

  function FuseOpen(sys: System, ino: nat, truncates: bool, cfg: Config): (System, Response)
    requires Shaped(sys, cfg) && Ready(sys, Open(ino, truncates), cfg)
  {
    if ino >= |sys.ns.nodes| then (sys, Failed(ENOENT))
    else if sys.ns.nodes[ino].kind == Directory then (sys, Failed(EISDIR))
    else if sys.ns.nodes[ino].kind != Regular then (sys, Failed(EPERM))
    else
      var f := sys.files[ino];
      (WithFile(sys, ino, if truncates then f.(size := 0, blocks := 0) else f.(buf := LoadFile(sys, ino, cfg))), Done)
  }

  function FuseRead(sys: System, ino: nat, off: nat, count: nat, cfg: Config): (System, Response)
    requires Shaped(sys, cfg) && Ready(sys, Read(ino, off, count), cfg)
  {
    if ino >= |sys.ns.nodes| then (sys, Failed(ENOENT))
    else
      match sys.ns.nodes[ino].kind
      case Directory => (sys, Failed(EISDIR))
      case Special => (sys, Failed(ENOENT))
      case Symlink => (sys, Failed(EISDIR))
      case Regular => (sys, Data(ReadFile(sys.files[ino], off, count)))
  }

  function FuseWrite(sys: System, ino: nat, off: nat, data: seq<Byte>, junk: seq<Byte>, cfg: Config): (System, Response)
    requires Shaped(sys, cfg) && Ready(sys, Write(ino, off, data, junk), cfg)
  {
    if ino >= |sys.ns.nodes| then (sys, Failed(ENOENT))
    else
      match sys.ns.nodes[ino].kind
      case Directory => (sys, Failed(EISDIR))
      case Symlink => (sys, Failed(ENOENT))
      case Special => (sys, Failed(EISDIR))
      case Regular =>
        InvInBounds(sys.files[ino], off + |data|, cfg.B);
        var f := WriteFile(sys.files[ino], off, data, junk, cfg.B);
        (WithFile(sys, ino, f).(bfree := (sys.bfree - (f.blocks - sys.files[ino].blocks)) % TWO_64), Written(|data|))
  }

  /** Writes the buffer back if something was written, and frees it. */
  function FuseFlush(sys: System, ino: nat, addrs: seq<Addr>, cfg: Config): (System, Response)
    requires Shaped(sys, cfg) && Ready(sys, Flush(ino, addrs), cfg)
  {
    if ino >= |sys.ns.nodes| then (sys, Failed(ENOENT))
    else
      var f := sys.files[ino];
      if f.buf.None? then (sys, Done)
      else if f.waiting then
        (WithFile(StoreFile(sys, ino, f.buf.value, addrs, cfg), ino, f.(buf := None, waiting := false)), Done)
      else (WithFile(sys, ino, f.(buf := None)), Done)
  }

  function FuseRelease(sys: System, ino: nat, cfg: Config): (System, Response)
    requires Shaped(sys, cfg)
  {
    if ino >= |sys.ns.nodes| then (sys, Failed(ENOENT))
    else if sys.ns.nodes[ino].kind == Directory then (sys, Failed(EISDIR))
    else if sys.ns.nodes[ino].kind == Regular then (WithFile(sys, ino, sys.files[ino].(buf := None)), Done)
    else (sys, Done)
  }

  function Serve(sys: System, req: Request, cfg: Config): (System, Response)
    requires Shaped(sys, cfg) && Ready(sys, req, cfg)
    ensures Shaped(Serve(sys, req, cfg).0, cfg)
  {
    match req
    case Names(op) => var (after, replies) := StepNames(sys, op, cfg); (after, Replies(replies))
    case Open(ino, truncates) => FuseOpen(sys, ino, truncates, cfg)
    case Read(ino, off, count) => FuseRead(sys, ino, off, count, cfg)
    case Write(ino, off, data, junk) => FuseWrite(sys, ino, off, data, junk, cfg)
    case Flush(ino, addrs) => FuseFlush(sys, ino, addrs, cfg)
    case Release(ino) => FuseRelease(sys, ino, cfg)
  }
}
