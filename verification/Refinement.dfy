/** The client-server file system refines a plain tree of names over a plain map from inode to bytes. */
module Refinement {
  import opened Partition
  import opened BlockStore
  import opened Blocks
  import opened FileSession
  import opened NameSpace
  import opened NameSafety
  import opened Cluster
  import opened ClientServer
  import opened PlainTree

  /** The specification: the tree of names, the contents of each file, the files in a session,
      and those of them that have been written to in it. */
  datatype Plain = Plain(tree: Tree, content: map<nat, seq<Byte>>, sessions: set<nat>, dirty: set<nat>)

  function PlainMounted(): Plain { Plain(MountedTree(), map[], {}, {}) }

  predicate PlainFile(t: Tree, i: nat) {
    i < |t| && t[i].kind == Regular
  }

  /** The kernel's and the callers' side of the agreement: the namespace rules hold, an open
      file is held and has one session at a time, reads and writes start at or before the
      end, and what has been written is flushed before the file is released. */
  ghost predicate Permitted(ns: NameState, a: Plain, req: Request, cfg: Config)
    requires Closed(ns)
  {
    match req
    case Names(op) =>
      KernelAllows(ns, op) && (op.Forget? && op.ino in a.sessions ==> op.count < ns.nodes[op.ino].nlookup)
    case Open(ino, truncates) =>
      PlainFile(a.tree, ino) ==> ino !in a.sessions && ino < |ns.nodes| && ns.nodes[ino].nlookup > 0
    case Read(ino, off, count) => InsideSession(a, ino, off)
    case Write(ino, off, data, junk) => InsideSession(a, ino, off)
    case Flush(ino, addrs) =>
      ino < |a.tree| ==>
        PlainFile(a.tree, ino) && ino in a.content
        && (ino in a.dirty ==> TransferFits(BlockCount(|a.content[ino]|, cfg.B), cfg))
    case Release(ino) => ino !in a.dirty
  }

  /** If it is a file, it is open, and the offset is not behind its end. */
  predicate InsideSession(a: Plain, ino: nat, off: nat) {
    PlainFile(a.tree, ino) ==> ino in a.sessions && ino in a.content && off <= |a.content[ino]|
  }

  /** Something new, empty if it is a file, and open if it was made by opening. */
  function WithMade(a: Plain, op: Op, number: nat): Plain {
    a.(content := if NewKind(op) == Regular then a.content[number := []] else a.content - {number},
       sessions := if op.Create? then a.sessions + {number} else a.sessions,
       dirty := a.dirty - {number})
  }

  /** What one request does to the plain tree and map, and its reply. The number of an inode
      that is made comes from outside. */
  function ServePlain(a: Plain, req: Request, number: nat): (Plain, Response)
    requires req.Read? || req.Write? ==> InsideSession(a, req.ino, req.off)
  {
    match req
    case Names(op) =>
      var (tree, replies) := ServeTree(a.tree, op, number);
      (if MakesNew(a.tree, op) then WithMade(a, op, number).(tree := tree) else a.(tree := tree), Replies(replies))
    case Open(ino, truncates) =>
      if ino >= |a.tree| then (a, Failed(ENOENT))
      else if a.tree[ino].kind == Directory then (a, Failed(EISDIR))
      else if a.tree[ino].kind != Regular then (a, Failed(EPERM))
      else (a.(content := if truncates then a.content[ino := []] else a.content, sessions := a.sessions + {ino}), Done)
    case Read(ino, off, count) =>
      if ino >= |a.tree| || a.tree[ino].kind == Special then (a, Failed(ENOENT))
      else if a.tree[ino].kind != Regular then (a, Failed(EISDIR))
      else (a, Data(Slice(a.content[ino], off, count)))
    case Write(ino, off, data, junk) =>
      if ino >= |a.tree| || a.tree[ino].kind == Symlink then (a, Failed(ENOENT))
      else if a.tree[ino].kind != Regular then (a, Failed(EISDIR))
      else
        var spliced := Splice(a.content[ino], off, data);
        (a.(content := a.content[ino := spliced], dirty := a.dirty + {ino}), Written(|data|))
    case Flush(ino, addrs) =>
      if ino >= |a.tree| then (a, Failed(ENOENT))
      else (a.(sessions := a.sessions - {ino}, dirty := a.dirty - {ino}), Done)
    case Release(ino) =>
      if ino >= |a.tree| then (a, Failed(ENOENT))
      else if a.tree[ino].kind == Directory then (a, Failed(EISDIR))
      else (a.(sessions := a.sessions - {ino}), Done)
  }

  /** The block store holds the bytes of file `i`. */
  ghost predicate Backed(sys: System, i: nat, c: seq<Byte>, cfg: Config)
    requires Shaped(sys, cfg)
  {
    c != [] ==>
      && TransferFits(BlockCount(|c|, cfg.B), cfg)
      && Stored(sys, i, |c|, cfg)
      && StoredBytes(sys, i, |c|, cfg)[..|c|] == c
  }

  /** Between sessions there is no buffer, and nothing waits to be stored. */
  ghost predicate AtRest(f: FileData, c: seq<Byte>, cfg: Config) {
    && f.buf.None?
    && (f.waiting ==> c == [])
    && f.size == |c|
    && f.blocks == BlockCount(|c|, cfg.B)
  }

  /** Inside a session the bytes are in the buffer. */
  ghost predicate InSession(f: FileData, c: seq<Byte>, cfg: Config) {
    && BufferInv(f, cfg.B)
    && f.size == |c|
    && Content(f) == c
    && (c == [] ==> f.buf.None?)
  }

  /** The flag is up once something has been written; an empty file may have it up from before. */
  ghost predicate WaitingAgrees(f: FileData, c: seq<Byte>, dirty: bool) {
    && (dirty ==> f.waiting)
    && (f.waiting ==> dirty || c == [])
  }

  /** Between sessions, and inside a session until the first write, the store holds the bytes. */
  ghost predicate FileAgrees(sys: System, a: Plain, i: nat, cfg: Config)
    requires Shaped(sys, cfg) && i < |sys.files|
  {
    if IsFile(sys, i) then
      && i in a.content
      && (if i in a.sessions then
            && InSession(sys.files[i], a.content[i], cfg)
            && WaitingAgrees(sys.files[i], a.content[i], i in a.dirty)
            && sys.ns.nodes[i].nlookup > 0
            && (i in a.dirty || Backed(sys, i, a.content[i], cfg))
          else
            && AtRest(sys.files[i], a.content[i], cfg)
            && i !in a.dirty
            && Backed(sys, i, a.content[i], cfg))
    else i !in a.content && i !in a.sessions && i !in a.dirty
  }

  ghost predicate Agrees(sys: System, a: Plain, cfg: Config) {
    && Shaped(sys, cfg)
    && NameInv(sys.ns)
    && a.tree == TreeOf(sys.ns.nodes)
    && (forall i: nat :: i < |sys.files| ==> FileAgrees(sys, a, i, cfg))
    && (forall i: nat :: i in a.content || i in a.sessions || i in a.dirty ==> i < |sys.files|)
  }

  /** Addresses that `malloc` returns during a flush are fresh on their ranks. */
  ghost predicate MallocFresh(sys: System, req: Request, cfg: Config)
    requires Shaped(sys, cfg)
  {
    req.Flush? && req.ino < |sys.files| && MustStore(sys.files[req.ino]) ==>
      |req.addrs| == BlockCount(sys.files[req.ino].size, cfg.B) && FreshEverywhere(sys.heaps, req.addrs, cfg)
  }

  lemma MountedAgrees(cfg: Config)
    ensures Agrees(Mounted(cfg), PlainMounted(), cfg)
  {
    InitInv();
    InvClosed(NameSpace.Init());
    InitTree();
  }

  /** A file of the tree is a file of the system. */
  lemma SameFiles(sys: System, a: Plain, i: nat, cfg: Config)
    requires Agrees(sys, a, cfg)
    ensures PlainFile(a.tree, i) <==> IsFile(sys, i)
    ensures i < |a.tree| <==> i < |sys.files|
    ensures i < |a.tree| ==> a.tree[i].kind == sys.ns.nodes[i].kind
  {
  }

  /** Nothing that the code relies on is ever missing. */
  lemma AlwaysReady(sys: System, a: Plain, req: Request, cfg: Config)
    requires Agrees(sys, a, cfg) && Permitted(sys.ns, a, req, cfg) && MallocFresh(sys, req, cfg)
    ensures Ready(sys, req, cfg)
  {
    if !req.Names? {
      SameFiles(sys, a, req.ino, cfg);
      if req.ino < |sys.files| { assert FileAgrees(sys, a, req.ino, cfg); }
    }
  }

  // ---- namespace requests ----

  /** Inode `i` keeps its kind and is not forgotten. */
  ghost predicate Kept(s: NameState, after: NameState, i: nat) {
    && i < |s.nodes| <= |after.nodes|
    && after.nodes[i].kind == s.nodes[i].kind
    && after.nodes[i].nlookup >= s.nodes[i].nlookup
  }

  lemma MakingKeeps(s: NameState, op: Op, i: nat)
    requires NameInv(s) && Closed(s) && Makes(s, op)
    requires i < |s.nodes| && i != NextInode(s)
    ensures Kept(s, Step(s, op).0, i)
  {
    MakesAddNew(s, op);
    AddNewKeeps(s, op.parent, op.name, NewKind(op), i);
  }

  lemma AddNewKeeps(s: NameState, parent: nat, name: string, kind: Kind, i: nat)
    requires Closed(s) && IsDirectory(s.nodes, parent) && i < |s.nodes| && i != NextInode(s)
    ensures Kept(s, AddNew(s, parent, name, kind).0, i)
  {
    assert Kept(s, RegisterINode(s, kind, 2), i) && Kept(s, RegisterINode(s, kind, 1), i);
  }

  lemma ChangingKeeps(s: NameState, op: Op, i: nat)
    requires NameInv(s) && Closed(s) && i < |s.nodes|
    requires op.Unlink? || op.Rmdir? || op.Lookup? || op.Link?
    ensures Kept(s, Step(s, op).0, i)
  {
  }

  lemma RenameKeeps(s: NameState, parent: nat, name: string, newparent: nat, newname: string, i: nat)
    requires NameInv(s) && Closed(s) && i < |s.nodes|
    ensures Kept(s, FuseRename(s, parent, name, newparent, newname).0, i)
  {
  }

  /** What a namespace request does to kinds and lookup counts. */
  lemma NamesEffect(s: NameState, op: Op, i: nat)
    requires NameInv(s) && Closed(s) && KernelAllows(s, op) && i < |s.nodes|
    requires !(Makes(s, op) && i == NextInode(s))
    requires !(op.Forget? && op.ino == i)
    ensures Kept(s, Step(s, op).0, i)
  {
    if Makes(s, op) {
      MakingKeeps(s, op, i);
    } else {
      match op
      case Unlink(_, _) => ChangingKeeps(s, op, i);
      case Rmdir(_, _) => ChangingKeeps(s, op, i);
      case Lookup(_, _) => ChangingKeeps(s, op, i);
      case Link(_, _, _) => ChangingKeeps(s, op, i);
      case Rename(parent, name, newparent, newname) => RenameKeeps(s, parent, name, newparent, newname, i);
      case _ =>
    }
  }

  lemma MadeNode(s: NameState, op: Op)
    requires NameInv(s) && Closed(s) && KernelAllows(s, op) && Makes(s, op)
    ensures var ino, after := NextInode(s), Step(s, op).0;
            && ino < |after.nodes|
            && after.nodes[ino].nlookup == 1
            && after.nodes[ino].kind == NewKind(op)
  {
    MakesAddNew(s, op);
    LinkedParentNotNew(s, op);
  }

  lemma LinkedParentNotNew(s: NameState, op: Op)
    requires NameInv(s) && Closed(s) && KernelAllows(s, op) && Makes(s, op)
    requires op.Mknod? || op.Mkdir? || op.Create? || op.MakeSymlink?
    ensures op.parent != NextInode(s)
  {
    NextInodeUnused(s);
  }

  /** A file whose inode, buffer, blocks and contents are untouched still agrees. */
  lemma UntouchedAgrees(sys: System, a: Plain, after: System, b: Plain, i: nat, cfg: Config)
    requires Shaped(sys, cfg) && Shaped(after, cfg) && i < |sys.files| && i < |after.files|
    requires FileAgrees(sys, a, i, cfg)
    requires after.files[i] == sys.files[i] && IsFile(after, i) == IsFile(sys, i)
    requires ListOf(after.lists, i) == ListOf(sys.lists, i) && Grown(sys.heaps, after.heaps)
    requires (i in b.content) == (i in a.content) && (i in a.content ==> b.content[i] == a.content[i])
    requires (i in b.sessions) == (i in a.sessions) && (i in b.dirty) == (i in a.dirty)
    requires i in a.sessions ==> after.ns.nodes[i].nlookup > 0
    ensures FileAgrees(after, b, i, cfg)
  {
    if IsFile(sys, i) && a.content[i] != [] && Backed(sys, i, a.content[i], cfg) {
      var n := BlockCount(|a.content[i]|, cfg.B);
      ReadFrame(sys.heaps, after.heaps, AddressesOf(ListOf(sys.lists, i), n), seq(n * cfg.B, _ => 0), cfg);
    }
  }

  lemma SameHeapsGrown(heaps: seq<Heap>)
    ensures Grown(heaps, heaps)
  {
  }

  lemma NamesInv(sys: System, op: Op, cfg: Config)
    requires Shaped(sys, cfg) && NameInv(sys.ns) && KernelAllows(sys.ns, op)
    ensures NameInv(StepNames(sys, op, cfg).0.ns)
  {
    StepInv(sys.ns, op);
  }

  lemma NamesAgree(sys: System, a: Plain, op: Op, cfg: Config)
    requires Agrees(sys, a, cfg) && Permitted(sys.ns, a, Names(op), cfg)
    ensures Replies(StepNames(sys, op, cfg).1) == ServePlain(a, Names(op), NextInode(sys.ns)).1
    ensures Agrees(StepNames(sys, op, cfg).0, ServePlain(a, Names(op), NextInode(sys.ns)).0, cfg)
  {
    var after, b := StepNames(sys, op, cfg).0, ServePlain(a, Names(op), NextInode(sys.ns)).0;
    NamesInv(sys, op, cfg);
    StepServesTree(sys.ns, op);
    MakesIff(sys.ns, op);
    forall i: nat | i < |after.files| ensures FileAgrees(after, b, i, cfg) {
      if Makes(sys.ns, op) && i == NextInode(sys.ns) {
        MadeAgrees(sys, a, op, cfg);
      } else {
        NamesKeepFile(sys, a, op, i, cfg);
      }
    }
  }

  lemma NamesKeepFile(sys: System, a: Plain, op: Op, i: nat, cfg: Config)
    requires Agrees(sys, a, cfg) && Permitted(sys.ns, a, Names(op), cfg)
    requires Shaped(StepNames(sys, op, cfg).0, cfg)
    requires i < |StepNames(sys, op, cfg).0.files| && !(Makes(sys.ns, op) && i == NextInode(sys.ns))
    ensures FileAgrees(StepNames(sys, op, cfg).0, ServePlain(a, Names(op), NextInode(sys.ns)).0, i, cfg)
  {
    var after, b := StepNames(sys, op, cfg).0, ServePlain(a, Names(op), NextInode(sys.ns)).0;
    NamesKeepStored(sys, op, i, cfg);
    NamesKeepPlain(sys.ns, a, op, i);
    assert FileAgrees(sys, a, i, cfg);
    if !(op.Forget? && op.ino == i) {
      NamesEffect(sys.ns, op, i);
    } else {
      ForgetKeeps(sys.ns, i, op.count);
    }
    UntouchedAgrees(sys, a, after, b, i, cfg);
  }

  lemma ForgetKeeps(s: NameState, ino: nat, count: nat)
    requires Closed(s) && ino < |s.nodes|
    ensures |FuseForget(s, ino, count).0.nodes| == |s.nodes|
    ensures FuseForget(s, ino, count).0.nodes[ino] == s.nodes[ino].Forget(count)
  {
  }

  lemma NamesKeepStored(sys: System, op: Op, i: nat, cfg: Config)
    requires Shaped(sys, cfg) && (op.Forget? ==> op.ino < |sys.ns.nodes|)
    requires i < |StepNames(sys, op, cfg).0.files| && !(Makes(sys.ns, op) && i == NextInode(sys.ns))
    ensures var after := StepNames(sys, op, cfg).0;
            && i < |sys.files| && after.files[i] == sys.files[i] && ListOf(after.lists, i) == ListOf(sys.lists, i)
            && Grown(sys.heaps, after.heaps)
  {
    TableGrowth(sys.ns, op);
    SameHeapsGrown(sys.heaps);
  }

  lemma NamesKeepPlain(ns: NameState, a: Plain, op: Op, i: nat)
    requires Closed(ns) && a.tree == TreeOf(ns.nodes) && (op.Forget? ==> op.ino < |ns.nodes|)
    requires !(Makes(ns, op) && i == NextInode(ns))
    ensures var b := ServePlain(a, Names(op), NextInode(ns)).0;
            && ((i in b.content) == (i in a.content)) && (i in a.content ==> b.content[i] == a.content[i])
            && ((i in b.sessions) == (i in a.sessions)) && ((i in b.dirty) == (i in a.dirty))
  {
    MakesIff(ns, op);
  }

  /** A new file is empty, whatever blocks the inode number had in an earlier life. */
  lemma MadeAgrees(sys: System, a: Plain, op: Op, cfg: Config)
    requires Agrees(sys, a, cfg) && Permitted(sys.ns, a, Names(op), cfg) && Makes(sys.ns, op)
    requires Shaped(StepNames(sys, op, cfg).0, cfg)
    requires NextInode(sys.ns) < |StepNames(sys, op, cfg).0.files|
    ensures FileAgrees(StepNames(sys, op, cfg).0, ServePlain(a, Names(op), NextInode(sys.ns)).0, NextInode(sys.ns), cfg)
  {
    var ino := NextInode(sys.ns);
    MadeNode(sys.ns, op);
    MakesIff(sys.ns, op);
    NumberFree(sys, a, cfg);
    MadeFileAgrees(StepNames(sys, op, cfg).0, ServePlain(a, Names(op), ino).0, op, ino, cfg);
  }

  /** A number that is about to be given out is in no session. */
  lemma NumberFree(sys: System, a: Plain, cfg: Config)
    requires Agrees(sys, a, cfg)
    ensures NextInode(sys.ns) !in a.sessions && NextInode(sys.ns) !in a.dirty
  {
    var ino := NextInode(sys.ns);
    NextInodeUnused(sys.ns);
    if ino < |sys.files| { assert FileAgrees(sys, a, ino, cfg); }
  }

  lemma MadeFileAgrees(after: System, b: Plain, op: Op, ino: nat, cfg: Config)
    requires Shaped(after, cfg) && ino < |after.files| && after.files[ino] == EmptyFile
    requires after.ns.nodes[ino].nlookup == 1 && after.ns.nodes[ino].kind == NewKind(op)
    requires if NewKind(op) == Regular then ino in b.content && b.content[ino] == [] else ino !in b.content
    requires (ino in b.sessions <==> op.Create?) && ino !in b.dirty
    requires op.Create? ==> NewKind(op) == Regular
    ensures FileAgrees(after, b, ino, cfg)
  {
  }

  // ---- file requests ----

  /** A request that touches one file leaves all others as they were. */
  lemma OneFileAgrees(sys: System, a: Plain, after: System, b: Plain, ino: nat, cfg: Config)
    requires Agrees(sys, a, cfg) && ino < |sys.files|
    requires Shaped(after, cfg) && after.ns == sys.ns && |after.files| == |sys.files|
    requires Grown(sys.heaps, after.heaps)
    requires forall i :: 0 <= i < |sys.files| && i != ino ==>
                           after.files[i] == sys.files[i] && ListOf(after.lists, i) == ListOf(sys.lists, i)
    requires forall i: nat :: i != ino ==>
                                && ((i in b.content) == (i in a.content))
                                && (i in a.content ==> b.content[i] == a.content[i])
                                && ((i in b.sessions) == (i in a.sessions)) && ((i in b.dirty) == (i in a.dirty))
    requires FileAgrees(after, b, ino, cfg) && b.tree == a.tree
    ensures Agrees(after, b, cfg)
  {
    forall i: nat | i < |after.files| ensures FileAgrees(after, b, i, cfg) {
      if i != ino {
        assert FileAgrees(sys, a, i, cfg);
        UntouchedAgrees(sys, a, after, b, i, cfg);
      }
    }
  }

  lemma OpenKeepsOthers(sys: System, ino: nat, truncates: bool, cfg: Config)
    requires Shaped(sys, cfg) && Ready(sys, Open(ino, truncates), cfg)
    ensures var after := FuseOpen(sys, ino, truncates, cfg).0;
            && Shaped(after, cfg) && after.ns == sys.ns && |after.files| == |sys.files|
            && after.heaps == sys.heaps && after.lists == sys.lists
            && forall i :: 0 <= i < |sys.files| && i != ino ==> after.files[i] == sys.files[i]
  {
  }

  lemma OpenedFileAgrees(sys: System, a: Plain, ino: nat, truncates: bool, cfg: Config)
    requires Shaped(sys, cfg) && IsFile(sys, ino) && FileAgrees(sys, a, ino, cfg)
    requires ino !in a.sessions && sys.ns.nodes[ino].nlookup > 0 && Ready(sys, Open(ino, truncates), cfg)
    ensures var content := if truncates then a.content[ino := []] else a.content;
            FileAgrees(FuseOpen(sys, ino, truncates, cfg).0,
                       a.(content := content, sessions := a.sessions + {ino}), ino, cfg)
  {
  }

  lemma OpenAgrees(sys: System, a: Plain, ino: nat, truncates: bool, cfg: Config)
    requires Agrees(sys, a, cfg) && Permitted(sys.ns, a, Open(ino, truncates), cfg)
    requires Ready(sys, Open(ino, truncates), cfg)
    ensures FuseOpen(sys, ino, truncates, cfg).1 == ServePlain(a, Open(ino, truncates), NextInode(sys.ns)).1
    ensures Agrees(FuseOpen(sys, ino, truncates, cfg).0, ServePlain(a, Open(ino, truncates), NextInode(sys.ns)).0, cfg)
  {
    SameFiles(sys, a, ino, cfg);
    if IsFile(sys, ino) {
      var after, b := FuseOpen(sys, ino, truncates, cfg).0, ServePlain(a, Open(ino, truncates), NextInode(sys.ns)).0;
      assert FileAgrees(sys, a, ino, cfg);
      OpenedFileAgrees(sys, a, ino, truncates, cfg);
      OpenKeepsOthers(sys, ino, truncates, cfg);
      SameHeapsGrown(sys.heaps);
      OneFileAgrees(sys, a, after, b, ino, cfg);
    }
  }

  lemma ReadAgrees(sys: System, a: Plain, ino: nat, off: nat, count: nat, cfg: Config)
    requires Agrees(sys, a, cfg) && Permitted(sys.ns, a, Read(ino, off, count), cfg)
    requires Ready(sys, Read(ino, off, count), cfg)
    ensures FuseRead(sys, ino, off, count, cfg) == (sys, ServePlain(a, Read(ino, off, count), NextInode(sys.ns)).1)
  {
    SameFiles(sys, a, ino, cfg);
    if IsFile(sys, ino) {
      assert FileAgrees(sys, a, ino, cfg);
      ReadIsSlice(sys.files[ino], off, count, cfg.B);
    }
  }

  /** The file that is written, whatever the rest of the system. */
  lemma WrittenFileAgrees(sys: System, a: Plain, ino: nat, off: nat, data: seq<Byte>, junk: seq<Byte>, cfg: Config)
    requires Shaped(sys, cfg) && IsFile(sys, ino) && FileAgrees(sys, a, ino, cfg)
    requires ino in a.sessions && off <= |a.content[ino]| && Ready(sys, Write(ino, off, data, junk), cfg)
    ensures var after := FuseWrite(sys, ino, off, data, junk, cfg).0;
            var spliced := Splice(a.content[ino], off, data);
            FileAgrees(after, a.(content := a.content[ino := spliced], dirty := a.dirty + {ino}), ino, cfg)
  {
    WriteUnderInv(sys.files[ino], off, data, junk, cfg.B);
  }

  lemma WriteKeepsOthers(sys: System, ino: nat, off: nat, data: seq<Byte>, junk: seq<Byte>, cfg: Config)
    requires Shaped(sys, cfg) && Ready(sys, Write(ino, off, data, junk), cfg)
    ensures var after := FuseWrite(sys, ino, off, data, junk, cfg).0;
            && Shaped(after, cfg) && after.ns == sys.ns && |after.files| == |sys.files|
            && after.heaps == sys.heaps && after.lists == sys.lists
            && forall i :: 0 <= i < |sys.files| && i != ino ==> after.files[i] == sys.files[i]
  {
  }

  lemma WriteAgrees(sys: System, a: Plain, ino: nat, off: nat, data: seq<Byte>, junk: seq<Byte>, cfg: Config)
    requires Agrees(sys, a, cfg) && Permitted(sys.ns, a, Write(ino, off, data, junk), cfg)
    requires Ready(sys, Write(ino, off, data, junk), cfg)
    ensures var b := ServePlain(a, Write(ino, off, data, junk), NextInode(sys.ns));
            && FuseWrite(sys, ino, off, data, junk, cfg).1 == b.1
            && Agrees(FuseWrite(sys, ino, off, data, junk, cfg).0, b.0, cfg)
  {
    SameFiles(sys, a, ino, cfg);
    if IsFile(sys, ino) {
      var after := FuseWrite(sys, ino, off, data, junk, cfg).0;
      var b := ServePlain(a, Write(ino, off, data, junk), NextInode(sys.ns)).0;
      assert FileAgrees(sys, a, ino, cfg);
      WrittenFileAgrees(sys, a, ino, off, data, junk, cfg);
      WriteKeepsOthers(sys, ino, off, data, junk, cfg);
      SameHeapsGrown(sys.heaps);
      OneFileAgrees(sys, a, after, b, ino, cfg);
    }
  }

  /** What a flush has stored, a later load finds. */
  lemma FlushStores(sys: System, ino: nat, buf: seq<Byte>, size: nat, addrs: seq<Addr>, cfg: Config)
    requires Shaped(sys, cfg) && |buf| == |addrs| * cfg.B && |addrs| == BlockCount(size, cfg.B)
    requires FreshEverywhere(sys.heaps, addrs, cfg)
    ensures var after := StoreFile(sys, ino, buf, addrs, cfg);
            && Grown(sys.heaps, after.heaps)
            && Stored(after, ino, size, cfg)
            && StoredBytes(after, ino, size, cfg) == buf
  {
    AddressesAfterRecording(ListOf(sys.lists, ino), addrs, ino, cfg);
    WriteGrows(sys.heaps, buf, addrs, cfg);
    ReadAfterWrite(sys.heaps, buf, addrs, seq(|addrs| * cfg.B, _ => 0), cfg);
  }

  /** The end of a session in which something was written. */
  lemma DirtyFlushAgrees(sys: System, a: Plain, ino: nat, addrs: seq<Addr>, cfg: Config)
    requires Agrees(sys, a, cfg) && Permitted(sys.ns, a, Flush(ino, addrs), cfg)
    requires MallocFresh(sys, Flush(ino, addrs), cfg) && Ready(sys, Flush(ino, addrs), cfg)
    requires ino < |sys.files| && MustStore(sys.files[ino])
    ensures Agrees(FuseFlush(sys, ino, addrs, cfg).0, ServePlain(a, Flush(ino, addrs), NextInode(sys.ns)).0, cfg)
  {
    var after, b := FuseFlush(sys, ino, addrs, cfg).0, ServePlain(a, Flush(ino, addrs), NextInode(sys.ns)).0;
    FlushedFileAgrees(sys, a, ino, addrs, cfg);
    DirtyFlushKeepsOthers(sys, ino, addrs, cfg);
    OneFileAgrees(sys, a, after, b, ino, cfg);
  }

  lemma DirtyFlushKeepsOthers(sys: System, ino: nat, addrs: seq<Addr>, cfg: Config)
    requires Shaped(sys, cfg) && Ready(sys, Flush(ino, addrs), cfg)
    requires ino < |sys.files| && MustStore(sys.files[ino])
    ensures var after := FuseFlush(sys, ino, addrs, cfg).0;
            && Shaped(after, cfg) && after.ns == sys.ns && |after.files| == |sys.files|
            && forall i :: 0 <= i < |sys.files| && i != ino ==>
                             after.files[i] == sys.files[i] && ListOf(after.lists, i) == ListOf(sys.lists, i)
  {
  }

  /** The file itself, and what the flush did to the heaps. */
  lemma FlushedFileAgrees(sys: System, a: Plain, ino: nat, addrs: seq<Addr>, cfg: Config)
    requires Agrees(sys, a, cfg) && Permitted(sys.ns, a, Flush(ino, addrs), cfg)
    requires MallocFresh(sys, Flush(ino, addrs), cfg) && Ready(sys, Flush(ino, addrs), cfg)
    requires ino < |sys.files| && MustStore(sys.files[ino])
    ensures var after, b := FuseFlush(sys, ino, addrs, cfg).0, ServePlain(a, Flush(ino, addrs), NextInode(sys.ns)).0;
            Grown(sys.heaps, after.heaps) && FileAgrees(after, b, ino, cfg)
  {
    var after := FuseFlush(sys, ino, addrs, cfg).0;
    var f := sys.files[ino];
    assert FileAgrees(sys, a, ino, cfg);
    FlushStores(sys, ino, f.buf.value, f.size, addrs, cfg);
    assert Backed(after, ino, a.content[ino], cfg) by {
      assert StoredBytes(after, ino, f.size, cfg) == f.buf.value;
    }
  }

  /** The end of a session without a write, or of one that never had a buffer. */
  lemma CleanFlushAgrees(sys: System, a: Plain, ino: nat, addrs: seq<Addr>, cfg: Config)
    requires Agrees(sys, a, cfg) && Permitted(sys.ns, a, Flush(ino, addrs), cfg)
    requires Ready(sys, Flush(ino, addrs), cfg)
    requires ino < |sys.files| && !MustStore(sys.files[ino])
    ensures Agrees(FuseFlush(sys, ino, addrs, cfg).0, ServePlain(a, Flush(ino, addrs), NextInode(sys.ns)).0, cfg)
  {
    var after, b := FuseFlush(sys, ino, addrs, cfg).0, ServePlain(a, Flush(ino, addrs), NextInode(sys.ns)).0;
    assert FileAgrees(sys, a, ino, cfg);
    SameHeapsGrown(sys.heaps);
    OneFileAgrees(sys, a, after, b, ino, cfg);
  }

  /** A flush must store precisely when something was written in the session and the file is
      not empty; otherwise no heap and no block list changes. */
  lemma FlushStoresIff(sys: System, a: Plain, ino: nat, addrs: seq<Addr>, cfg: Config)
    requires Agrees(sys, a, cfg) && Permitted(sys.ns, a, Flush(ino, addrs), cfg) && ino < |sys.files|
    requires MallocFresh(sys, Flush(ino, addrs), cfg)
    ensures Ready(sys, Flush(ino, addrs), cfg)
    ensures var after := FuseFlush(sys, ino, addrs, cfg).0;
            && (after.heaps != sys.heaps <==> ino in a.dirty && a.content[ino] != [])
            && (after.heaps == sys.heaps ==> after.lists == sys.lists)
  {
    AlwaysReady(sys, a, Flush(ino, addrs), cfg);
    assert FileAgrees(sys, a, ino, cfg);
    var f := sys.files[ino];
    if MustStore(f) {
      BlockCountUnique(f.size, cfg.B, BlockCount(f.size, cfg.B));
      WriteChangesHeaps(sys.heaps, f.buf.value, addrs, cfg);
    }
  }

  lemma FlushAgrees(sys: System, a: Plain, ino: nat, addrs: seq<Addr>, cfg: Config)
    requires Agrees(sys, a, cfg) && Permitted(sys.ns, a, Flush(ino, addrs), cfg)
    requires MallocFresh(sys, Flush(ino, addrs), cfg) && Ready(sys, Flush(ino, addrs), cfg)
    ensures FuseFlush(sys, ino, addrs, cfg).1 == ServePlain(a, Flush(ino, addrs), NextInode(sys.ns)).1
    ensures Agrees(FuseFlush(sys, ino, addrs, cfg).0, ServePlain(a, Flush(ino, addrs), NextInode(sys.ns)).0, cfg)
  {
    if ino < |sys.files| {
      if MustStore(sys.files[ino]) {
        DirtyFlushAgrees(sys, a, ino, addrs, cfg);
      } else {
        CleanFlushAgrees(sys, a, ino, addrs, cfg);
      }
    }
  }

  /** A release ends a session in which nothing waits to be flushed. */
  lemma ReleaseAgrees(sys: System, a: Plain, ino: nat, cfg: Config)
    requires Agrees(sys, a, cfg) && Permitted(sys.ns, a, Release(ino), cfg)
    ensures FuseRelease(sys, ino, cfg).1 == ServePlain(a, Release(ino), NextInode(sys.ns)).1
    ensures Agrees(FuseRelease(sys, ino, cfg).0, ServePlain(a, Release(ino), NextInode(sys.ns)).0, cfg)
  {
    SameFiles(sys, a, ino, cfg);
    if ino < |sys.files| {
      assert FileAgrees(sys, a, ino, cfg);
      if IsFile(sys, ino) {
        var after, b := FuseRelease(sys, ino, cfg).0, ServePlain(a, Release(ino), NextInode(sys.ns)).0;
        SameHeapsGrown(sys.heaps);
        OneFileAgrees(sys, a, after, b, ino, cfg);
      } else {
        assert a.sessions - {ino} == a.sessions;
      }
    }
  }

  /** Simulation: every permitted request gets the reply of the plain tree and map, and the
      system still agrees with both afterwards. */
  lemma Simulation(sys: System, a: Plain, req: Request, cfg: Config)
    requires Agrees(sys, a, cfg) && Permitted(sys.ns, a, req, cfg) && MallocFresh(sys, req, cfg)
    ensures Ready(sys, req, cfg)
    ensures Serve(sys, req, cfg).1 == ServePlain(a, req, NextInode(sys.ns)).1
    ensures Agrees(Serve(sys, req, cfg).0, ServePlain(a, req, NextInode(sys.ns)).0, cfg)
  {
    AlwaysReady(sys, a, req, cfg);
    match req
    case Names(op) => NamesAgree(sys, a, op, cfg);
    case Open(ino, truncates) => OpenAgrees(sys, a, ino, truncates, cfg);
    case Read(ino, off, count) => ReadAgrees(sys, a, ino, off, count, cfg);
    case Write(ino, off, data, junk) => WriteAgrees(sys, a, ino, off, data, junk, cfg);
    case Flush(ino, addrs) => FlushAgrees(sys, a, ino, addrs, cfg);
    case Release(ino) => ReleaseAgrees(sys, a, ino, cfg);
  }

  // ---- whole runs ----

  /** Kernel, callers and allocator keep to their rules throughout the run. */
  ghost predicate LegalRun(sys: System, a: Plain, reqs: seq<Request>, cfg: Config)
    requires Shaped(sys, cfg)
    decreases |reqs|
  {
    reqs == [] ||
    (&& Permitted(sys.ns, a, reqs[0], cfg)
     && MallocFresh(sys, reqs[0], cfg)
     && (Ready(sys, reqs[0], cfg) ==>
           LegalRun(Serve(sys, reqs[0], cfg).0, ServePlain(a, reqs[0], NextInode(sys.ns)).0, reqs[1..], cfg)))
  }

  /** The replies of the file system; the run stops where the code would touch missing data. */
  ghost function Responses(sys: System, reqs: seq<Request>, cfg: Config): seq<Response>
    requires Shaped(sys, cfg)
    decreases |reqs|
  {
    if reqs == [] || !Ready(sys, reqs[0], cfg) then []
    else [Serve(sys, reqs[0], cfg).1] + Responses(Serve(sys, reqs[0], cfg).0, reqs[1..], cfg)
  }

  /** The inode table, which only namespace requests change. */
  function NextNames(ns: NameState, req: Request): (after: NameState)
    requires Closed(ns) && (req.Names? && req.op.Forget? ==> req.op.ino < |ns.nodes|)
    ensures Closed(after)
  {
    if req.Names? then Step(ns, req.op).0 else ns
  }

  /** The replies of the plain tree and map. */
  ghost function PlainResponses(ns: NameState, a: Plain, reqs: seq<Request>, cfg: Config): seq<Response>
    requires Closed(ns)
    decreases |reqs|
  {
    if reqs == [] || !Permitted(ns, a, reqs[0], cfg) then []
    else [ServePlain(a, reqs[0], NextInode(ns)).1]
         + PlainResponses(NextNames(ns, reqs[0]), ServePlain(a, reqs[0], NextInode(ns)).0, reqs[1..], cfg)
  }

  /** What the kernel and the callers promise throughout a run, whatever the allocator does. */
  ghost predicate PermittedAll(ns: NameState, a: Plain, reqs: seq<Request>, cfg: Config)
    requires Closed(ns)
    decreases |reqs|
  {
    reqs == [] ||
    (&& Permitted(ns, a, reqs[0], cfg)
     && PermittedAll(NextNames(ns, reqs[0]), ServePlain(a, reqs[0], NextInode(ns)).0, reqs[1..], cfg))
  }

  /** Where a run leaves the inode table, the plain tree and the plain map. */
  ghost function PlainAfter(ns: NameState, a: Plain, reqs: seq<Request>, cfg: Config): (NameState, Plain)
    requires Closed(ns)
    decreases |reqs|
  {
    if reqs == [] || !Permitted(ns, a, reqs[0], cfg) then (ns, a)
    else PlainAfter(NextNames(ns, reqs[0]), ServePlain(a, reqs[0], NextInode(ns)).0, reqs[1..], cfg)
  }

  /** A run from `first` and `a` on that has been served up to request `k`. */
  datatype Progress = Progress(ns: NameState, b: Plain, k: nat, replies: seq<Response>)

  ghost predicate Underway(first: NameState, a: Plain, reqs: seq<Request>, r: Progress, cfg: Config)
    requires Closed(first)
  {
    && Closed(r.ns) && r.k == |r.replies| <= |reqs|
    && PermittedAll(r.ns, r.b, reqs[r.k..], cfg)
    && r.replies + PlainResponses(r.ns, r.b, reqs[r.k..], cfg) == PlainResponses(first, a, reqs, cfg)
    && PlainAfter(r.ns, r.b, reqs[r.k..], cfg) == PlainAfter(first, a, reqs, cfg)
  }

  lemma NextPermitted(first: NameState, a: Plain, reqs: seq<Request>, r: Progress, cfg: Config)
    requires Closed(first) && Underway(first, a, reqs, r, cfg) && r.k < |reqs|
    ensures Permitted(r.ns, r.b, reqs[r.k], cfg)
    ensures var (b, reply) := ServePlain(r.b, reqs[r.k], NextInode(r.ns));
            Underway(first, a, reqs, Progress(NextNames(r.ns, reqs[r.k]), b, r.k + 1, r.replies + [reply]), cfg)
  {
    var rest := reqs[r.k..];
    assert rest[0] == reqs[r.k] && rest[1..] == reqs[r.k + 1..];
    var (b, reply) := ServePlain(r.b, reqs[r.k], NextInode(r.ns));
    var more := PlainResponses(NextNames(r.ns, reqs[r.k]), b, rest[1..], cfg);
    assert r.replies + ([reply] + more) == (r.replies + [reply]) + more;
  }

  lemma RunEnded(first: NameState, a: Plain, reqs: seq<Request>, r: Progress, cfg: Config)
    requires Closed(first) && Underway(first, a, reqs, r, cfg) && r.k == |reqs|
    ensures r.replies == PlainResponses(first, a, reqs, cfg) && (r.ns, r.b) == PlainAfter(first, a, reqs, cfg)
  {
  }

  /** The inode table goes its own way: files, heaps and block lists play no part in it. */
  lemma ServedNames(sys: System, req: Request, cfg: Config)
    requires Shaped(sys, cfg) && Ready(sys, req, cfg)
    ensures Serve(sys, req, cfg).0.ns == NextNames(sys.ns, req)
  {
  }

  /** Two requests that differ only in what memory and allocator put into them. */
  predicate Alike(r: Request, q: Request) {
    match r
    case Write(ino, off, data, _) => q.Write? && q.ino == ino && q.off == off && q.data == data
    case Flush(ino, _) => q.Flush? && q.ino == ino
    case _ => q == r
  }

  lemma AlikeServed(ns: NameState, a: Plain, r: Request, q: Request, cfg: Config)
    requires Closed(ns) && Alike(r, q) && Permitted(ns, a, r, cfg)
    ensures Permitted(ns, a, q, cfg) && NextNames(ns, q) == NextNames(ns, r)
    ensures ServePlain(a, q, NextInode(ns)) == ServePlain(a, r, NextInode(ns))
  {
  }

  /** End to end: over every legal run the file system answers every request, and answers
      as the plain tree and map do. */
  lemma {:induction false} EndToEnd(sys: System, a: Plain, reqs: seq<Request>, cfg: Config)
    requires Agrees(sys, a, cfg) && LegalRun(sys, a, reqs, cfg)
    ensures Responses(sys, reqs, cfg) == PlainResponses(sys.ns, a, reqs, cfg)
    ensures |Responses(sys, reqs, cfg)| == |reqs|
    decreases |reqs|
  {
    if reqs != [] {
      Simulation(sys, a, reqs[0], cfg);
      ServedNames(sys, reqs[0], cfg);
      var after, b := Serve(sys, reqs[0], cfg).0, ServePlain(a, reqs[0], NextInode(sys.ns)).0;
      assert LegalRun(after, b, reqs[1..], cfg);
      EndToEnd(after, b, reqs[1..], cfg);
    }
  }

  lemma EndToEndFromMount(reqs: seq<Request>, cfg: Config)
    requires LegalRun(Mounted(cfg), PlainMounted(), reqs, cfg)
    ensures Responses(Mounted(cfg), reqs, cfg) == PlainResponses(NameSpace.Init(), PlainMounted(), reqs, cfg)
    ensures |Responses(Mounted(cfg), reqs, cfg)| == |reqs|
  {
    MountedAgrees(cfg);
    EndToEnd(Mounted(cfg), PlainMounted(), reqs, cfg);
  }
}
