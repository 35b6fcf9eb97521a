/** Exact link counts, of files and of directories: when they hold, and precisely which
    requests break them. */
module LinkLaw {
  import opened NameSpace
  import opened References
  import opened NameSafety
  import opened NameRuns
  import opened LinkReserve

  /** A file has as many links as entries that name it. */
  ghost predicate FileLaw(nodes: seq<Node>, i: nat)
    requires i < |nodes|
  {
    nodes[i].kind != Directory ==> nodes[i].nlink == |Refs(nodes, i)|
  }

  /** A linked directory has two links, the root three, plus one for each subdirectory. */
  ghost predicate DirLaw(nodes: seq<Node>, i: nat)
    requires i < |nodes|
  {
    nodes[i].kind == Directory && nodes[i].nlink > 0 ==> nodes[i].nlink == Base(i) + |Subdirs(nodes, i)|
  }

  ghost predicate FilesExact(nodes: seq<Node>) {
    forall i: nat :: i < |nodes| ==> FileLaw(nodes, i)
  }

  ghost predicate DirsExact(nodes: seq<Node>) {
    forall i: nat :: i < |nodes| ==> DirLaw(nodes, i)
  }

  /** The request puts an entry into a directory. */
  predicate Enters(s: NameState, op: Op)
    requires Closed(s)
  {
    match op
    case Link(ino, newparent, newname) => IsDirectory(s.nodes, newparent) && ino < |s.nodes|
    case Rename(parent, name, newparent, newname) =>
      IsDirectory(s.nodes, parent) && name in s.nodes[parent].children && IsDirectory(s.nodes, newparent)
    case _ => Makes(s, op)
  }

  /** The request overwrites no file's entry. */
  predicate SparesFiles(s: NameState, op: Op)
    requires Closed(s)
  {
    Enters(s, op) ==>
      match op
      case Link(ino, newparent, newname) => !NamesFile(s.nodes, newparent, newname)
      case Rename(parent, name, newparent, newname) => !NamesFile(s.nodes, newparent, newname)
      case Mknod(parent, name, kind) => !NamesFile(s.nodes, parent, name)
      case Mkdir(parent, name) => !NamesFile(s.nodes, parent, name)
      case MakeSymlink(parent, name) => !NamesFile(s.nodes, parent, name)
      case Create(parent, name) => !NamesFile(s.nodes, parent, name)
      case _ => true
  }

  /** The request overwrites no directory's entry, and moves no directory to another parent. */
  predicate SparesDirectories(s: NameState, op: Op)
    requires Closed(s)
  {
    Enters(s, op) ==>
      match op
      case Link(ino, newparent, newname) => !NamesDirectory(s.nodes, newparent, newname)
      case Rename(parent, name, newparent, newname) =>
        !NamesDirectory(s.nodes, newparent, newname)
        && (parent == newparent || !NamesDirectory(s.nodes, parent, name))
      case Mknod(parent, name, kind) => !NamesDirectory(s.nodes, parent, name)
      case Mkdir(parent, name) => !NamesDirectory(s.nodes, parent, name)
      case MakeSymlink(parent, name) => !NamesDirectory(s.nodes, parent, name)
      case Create(parent, name) => !NamesDirectory(s.nodes, parent, name)
      case _ => true
  }

  // ---- new entries ----

  /** File counts stay exact under a new entry precisely when it takes no file's place. */
  lemma PutFilesIff(nodes: seq<Node>, after: seq<Node>, d: nat, name: string, child: nat)
    requires TableOk(nodes) && IsDirectory(nodes, d) && child < |nodes|
    requires SameEntries(after, PutEntry(nodes, d, name, child))
    requires forall i :: 0 <= i < |nodes| && i != d && i != child ==> after[i] == nodes[i]
    requires forall i: nat :: i < |nodes| && i != child ==> FileLaw(nodes, i)
    requires !IsDirectory(nodes, child) ==> after[child].nlink == |Refs(nodes, child)| + 1
    ensures FilesExact(after) <==> !NamesFile(nodes, d, name)
  {
    if NamesFile(nodes, d, name) {
      var e := nodes[d].children[name];
      NamedHasLink(nodes, d, name);
      PutCounts(nodes, after, d, name, child, e);
      assert e != child ==> FileLaw(nodes, e);
      assert !FileLaw(after, e);
    } else {
      forall i: nat | i < |after| ensures FileLaw(after, i) {
        PutCounts(nodes, after, d, name, child, i);
        assert i != child ==> FileLaw(nodes, i);
      }
    }
  }

  /** Directory counts stay exact under a new entry precisely when it takes no directory's place. */
  lemma PutDirsIff(nodes: seq<Node>, after: seq<Node>, d: nat, name: string, child: nat)
    requires TableOk(nodes) && IsDirectory(nodes, d) && nodes[d].nlink > 0 && child < |nodes| && d != child
    requires SameEntries(after, PutEntry(nodes, d, name, child))
    requires forall i :: 0 <= i < |nodes| && i != d && i != child ==> after[i] == nodes[i]
    requires forall i: nat :: i < |nodes| && i != child ==> DirLaw(nodes, i)
    requires after[d].nlink == nodes[d].nlink + Flag(IsDirectory(nodes, child))
    requires IsDirectory(nodes, child) ==> child > 1 && after[child].nlink == 2 + |Subdirs(nodes, child)|
    ensures DirsExact(after) <==> !NamesDirectory(nodes, d, name)
  {
    assert name in Subdirs(nodes, d) <==> NamesDirectory(nodes, d, name);
    if NamesDirectory(nodes, d, name) {
      PutCounts(nodes, after, d, name, child, d);
      assert DirLaw(nodes, d) && !DirLaw(after, d);
    } else {
      forall i: nat | i < |after| ensures DirLaw(after, i) {
        PutCounts(nodes, after, d, name, child, i);
        assert i != child ==> DirLaw(nodes, i);
      }
    }
  }

  /** What the entry's name stood for is the same before and after registering. */
  lemma EntryUnaffected(s: NameState, parent: nat, name: string, kind: Kind, nlink: nat)
    requires NameInv(s) && Closed(s) && IsDirectory(s.nodes, parent) && s.nodes[parent].nlink > 0
    ensures parent < |RegisterINode(s, kind, nlink).nodes|
    ensures NamesDirectory(RegisterINode(s, kind, nlink).nodes, parent, name) <==> NamesDirectory(s.nodes, parent, name)
    ensures NamesFile(RegisterINode(s, kind, nlink).nodes, parent, name) <==> NamesFile(s.nodes, parent, name)
  {
    NextInodeUnused(s);
    if name in s.nodes[parent].children {
      var i := s.nodes[parent].children[name];
      assert (parent, name) in Refs(s.nodes, i);
      assert i != NextInode(s);
    }
  }

  lemma RegisteredLaws(s: NameState, kind: Kind, i: nat)
    requires NameInv(s) && Closed(s) && i < |RegisterINode(s, kind, if kind == Directory then 2 else 1).nodes|
    requires i != NextInode(s)
    ensures i < |s.nodes|
    ensures FileLaw(s.nodes, i) ==> FileLaw(RegisterINode(s, kind, if kind == Directory then 2 else 1).nodes, i)
    ensures DirLaw(s.nodes, i) ==> DirLaw(RegisterINode(s, kind, if kind == Directory then 2 else 1).nodes, i)
  {
    RegisterRefs(s, kind, if kind == Directory then 2 else 1, i);
  }

  lemma AddNewFilesIff(s: NameState, parent: nat, name: string, kind: Kind)
    requires NameInv(s) && Closed(s) && IsDirectory(s.nodes, parent) && s.nodes[parent].nlink > 0
    requires FilesExact(s.nodes)
    ensures FilesExact(AddNew(s, parent, name, kind).0.nodes) <==> !NamesFile(s.nodes, parent, name)
  {
    var nlink := if kind == Directory then 2 else 1;
    var registered := RegisterINode(s, kind, nlink).nodes;
    NewEntry(s, parent, name, kind);
    EntryUnaffected(s, parent, name, kind, nlink);
    forall i: nat | i < |registered| && i != NextInode(s) ensures FileLaw(registered, i) {
      RegisteredLaws(s, kind, i);
    }
    PutFilesIff(registered, AddNew(s, parent, name, kind).0.nodes, parent, name, NextInode(s));
  }

  lemma AddNewDirsIff(s: NameState, parent: nat, name: string, kind: Kind)
    requires NameInv(s) && Closed(s) && IsDirectory(s.nodes, parent) && s.nodes[parent].nlink > 0
    requires DirsExact(s.nodes)
    ensures DirsExact(AddNew(s, parent, name, kind).0.nodes) <==> !NamesDirectory(s.nodes, parent, name)
  {
    var nlink := if kind == Directory then 2 else 1;
    var registered := RegisterINode(s, kind, nlink).nodes;
    NewEntry(s, parent, name, kind);
    EntryUnaffected(s, parent, name, kind, nlink);
    forall i: nat | i < |registered| && i != NextInode(s) ensures DirLaw(registered, i) {
      RegisteredLaws(s, kind, i);
    }
    PutDirsIff(registered, AddNew(s, parent, name, kind).0.nodes, parent, name, NextInode(s));
  }

  lemma LinkFilesIff(s: NameState, ino: nat, newparent: nat, newname: string)
    requires NameInv(s) && Closed(s) && FilesExact(s.nodes)
    requires KernelSends(s, Link(ino, newparent, newname))
    requires IsDirectory(s.nodes, newparent) && ino < |s.nodes|
    ensures FilesExact(FuseLink(s, ino, newparent, newname).0.nodes) <==> !NamesFile(s.nodes, newparent, newname)
  {
    assert FileLaw(s.nodes, ino);
    PutFilesIff(s.nodes, FuseLink(s, ino, newparent, newname).0.nodes, newparent, newname, ino);
  }

  lemma LinkDirsIff(s: NameState, ino: nat, newparent: nat, newname: string)
    requires NameInv(s) && Closed(s) && DirsExact(s.nodes)
    requires KernelSends(s, Link(ino, newparent, newname))
    requires IsDirectory(s.nodes, newparent) && ino < |s.nodes|
    ensures DirsExact(FuseLink(s, ino, newparent, newname).0.nodes) <==> !NamesDirectory(s.nodes, newparent, newname)
  {
    PutDirsIff(s.nodes, FuseLink(s, ino, newparent, newname).0.nodes, newparent, newname, ino);
  }

  // ---- rename ----

  /** A rename keeps file counts exact precisely when it takes no file's place. */
  lemma RenameFilesIff(s: NameState, parent: nat, name: string, newparent: nat, newname: string)
    requires NameInv(s) && Closed(s) && FilesExact(s.nodes)
    requires IsDirectory(s.nodes, parent) && IsDirectory(s.nodes, newparent)
    requires name in s.nodes[parent].children && s.nodes[newparent].nlink > 0
    ensures FilesExact(FuseRename(s, parent, name, newparent, newname).0.nodes) <==>
            !NamesFile(s.nodes, newparent, newname)
  {
    var after := FuseRename(s, parent, name, newparent, newname).0.nodes;
    RenameEffect(s, parent, name, newparent, newname);
    if NamesFile(s.nodes, newparent, newname) {
      var e := s.nodes[newparent].children[newname];
      RenamedNode(s, parent, name, newparent, newname, e);
      assert (newparent, newname) in Refs(s.nodes, e);
      assert FileLaw(s.nodes, e) && !FileLaw(after, e);
    } else {
      forall i: nat | i < |after| ensures FileLaw(after, i) {
        assert FileLaw(s.nodes, i);
        RenamedNode(s, parent, name, newparent, newname, i);
      }
    }
  }

  lemma RenamedDirLaw(s: NameState, parent: nat, name: string, newparent: nat, newname: string, i: nat)
    requires NameInv(s) && Closed(s) && i < |s.nodes| && DirLaw(s.nodes, i)
    requires IsDirectory(s.nodes, parent) && IsDirectory(s.nodes, newparent)
    requires name in s.nodes[parent].children && s.nodes[newparent].nlink > 0
    ensures i < |FuseRename(s, parent, name, newparent, newname).0.nodes|
    ensures var after := FuseRename(s, parent, name, newparent, newname).0.nodes;
            var moves := parent != newparent && NamesDirectory(s.nodes, parent, name);
            var onto := ReplacesDirectory(s, newparent, newname);
            && (!moves && !onto ==> DirLaw(after, i))
            && (onto && i == newparent ==> !DirLaw(after, i))
            && (moves && !onto && i == parent ==> !DirLaw(after, i))
  {
    RenameEffect(s, parent, name, newparent, newname);
    RenamedNode(s, parent, name, newparent, newname, i);
  }

  /** A rename keeps directory counts exact precisely when it takes no directory's place and
      moves no directory to another parent. */
  lemma RenameDirsIff(s: NameState, parent: nat, name: string, newparent: nat, newname: string)
    requires NameInv(s) && Closed(s) && DirsExact(s.nodes)
    requires IsDirectory(s.nodes, parent) && IsDirectory(s.nodes, newparent)
    requires name in s.nodes[parent].children && s.nodes[newparent].nlink > 0
    ensures DirsExact(FuseRename(s, parent, name, newparent, newname).0.nodes) <==>
            !ReplacesDirectory(s, newparent, newname)
            && (parent == newparent || !NamesDirectory(s.nodes, parent, name))
  {
    var after := FuseRename(s, parent, name, newparent, newname).0.nodes;
    RenamedDirLaw(s, parent, name, newparent, newname, parent);
    RenamedDirLaw(s, parent, name, newparent, newname, newparent);
    forall i: nat | i < |s.nodes|
      && !ReplacesDirectory(s, newparent, newname) && (parent == newparent || !NamesDirectory(s.nodes, parent, name))
      ensures i < |after| && DirLaw(after, i)
    {
      RenamedDirLaw(s, parent, name, newparent, newname, i);
    }
    RenameEffect(s, parent, name, newparent, newname);
  }

  lemma ReplacesNames(s: NameState, d: nat, name: string)
    requires NameInv(s) && Closed(s) && d < |s.nodes|
    ensures ReplacesDirectory(s, d, name) <==> NamesDirectory(s.nodes, d, name)
  {
    ReplacesIff(s, d, name);
  }

  // ---- removals ----

  lemma UnlinkLaws(s: NameState, d: nat, name: string)
    requires NameInv(s) && Closed(s) && KernelSends(s, Unlink(d, name))
    ensures FilesExact(s.nodes) ==> FilesExact(FuseUnlink(s, d, name).0.nodes)
    ensures DirsExact(s.nodes) ==> DirsExact(FuseUnlink(s, d, name).0.nodes)
  {
    var after := FuseUnlink(s, d, name).0.nodes;
    if FuseUnlink(s, d, name).1 == [Success] {
      NamedHasLink(s.nodes, d, name);
      forall i: nat | i < |after|
        ensures (FileLaw(s.nodes, i) ==> FileLaw(after, i)) && (DirLaw(s.nodes, i) ==> DirLaw(after, i))
      {
        DroppedRefs(s.nodes, after, d, name, i);
      }
    }
  }

  lemma RmdirLaws(s: NameState, d: nat, name: string)
    requires NameInv(s) && Closed(s)
    ensures FilesExact(s.nodes) ==> FilesExact(FuseRmdir(s, d, name).0.nodes)
    ensures DirsExact(s.nodes) ==> DirsExact(FuseRmdir(s, d, name).0.nodes)
  {
    var after := FuseRmdir(s, d, name).0.nodes;
    if Removes(s, d, name) {
      RemovalEffect(s, d, name);
      forall i: nat | i < |after|
        ensures (FileLaw(s.nodes, i) ==> FileLaw(after, i)) && (DirLaw(s.nodes, i) ==> DirLaw(after, i))
      {
        DroppedRefs(s.nodes, after, d, name, i);
      }
    }
  }

  /** Lookup counts play no part. */
  lemma SameLinksLaws(a: seq<Node>, b: seq<Node>)
    requires |a| == |b| && forall i :: 0 <= i < |a| ==> b[i] == a[i].(nlookup := b[i].nlookup)
    ensures FilesExact(a) ==> FilesExact(b)
    ensures DirsExact(a) ==> DirsExact(b)
  {
    forall i: nat | i < |b| ensures (FileLaw(a, i) ==> FileLaw(b, i)) && (DirLaw(a, i) ==> DirLaw(b, i)) {
      SameEntriesRefs(a, b, i);
    }
  }

  /** Requests that put no entry anywhere. */
  lemma QuietLaws(s: NameState, op: Op)
    requires NameInv(s) && Closed(s) && KernelSends(s, op) && !Enters(s, op)
    ensures FilesExact(s.nodes) ==> FilesExact(Step(s, op).0.nodes)
    ensures DirsExact(s.nodes) ==> DirsExact(Step(s, op).0.nodes)
  {
    match op
    case Lookup(parent, name) => SameLinksLaws(s.nodes, FuseLookup(s, parent, name).0.nodes);
    case Forget(ino, count) => SameLinksLaws(s.nodes, FuseForget(s, ino, count).0.nodes);
    case Unlink(parent, name) => UnlinkLaws(s, parent, name);
    case Rmdir(parent, name) => RmdirLaws(s, parent, name);
    case _ => assert Step(s, op).0 == s;
  }

  // ---- any request ----

  /** From exact file counts, a request keeps them exact precisely when it overwrites no
      file's entry; directories may move as they like. */
  lemma StepFilesIff(s: NameState, op: Op)
    requires NameInv(s) && Closed(s) && FilesExact(s.nodes) && KernelSends(s, op)
    ensures FilesExact(Step(s, op).0.nodes) <==> SparesFiles(s, op)
  {
    if !Enters(s, op) {
      QuietLaws(s, op);
    } else if Makes(s, op) {
      MakesAddNew(s, op);
      AddNewFilesIff(s, op.parent, op.name, NewKind(op));
    } else if op.Link? {
      LinkFilesIff(s, op.ino, op.newparent, op.newname);
    } else {
      RenameFilesIff(s, op.parent, op.name, op.newparent, op.newname);
    }
  }

  /** From exact directory counts, a request keeps them exact precisely when it overwrites no
      directory's entry and moves no directory to another parent; files may replace files. */
  lemma StepDirsIff(s: NameState, op: Op)
    requires NameInv(s) && Closed(s) && DirsExact(s.nodes) && KernelSends(s, op)
    ensures DirsExact(Step(s, op).0.nodes) <==> SparesDirectories(s, op)
  {
    if !Enters(s, op) {
      QuietLaws(s, op);
    } else if Makes(s, op) {
      MakesAddNew(s, op);
      AddNewDirsIff(s, op.parent, op.name, NewKind(op));
    } else if op.Link? {
      LinkDirsIff(s, op.ino, op.newparent, op.newname);
    } else {
      RenameDirsIff(s, op.parent, op.name, op.newparent, op.newname);
      ReplacesNames(s, op.newparent, op.newname);
    }
  }

  // ---- whole runs ----

  ghost predicate AllSpareFiles(s: NameState, ops: seq<Op>)
    requires Closed(s) && Legal(s, ops)
    decreases |ops|
  {
    ops == [] || (SparesFiles(s, ops[0]) && AllSpareFiles(Step(s, ops[0]).0, ops[1..]))
  }

  ghost predicate AllSpareDirectories(s: NameState, ops: seq<Op>)
    requires Closed(s) && Sent(s, ops)
    decreases |ops|
  {
    ops == [] || (SparesDirectories(s, ops[0]) && AllSpareDirectories(Step(s, ops[0]).0, ops[1..]))
  }

  lemma {:induction false} RunFiles(s: NameState, ops: seq<Op>)
    requires NameInv(s) && Closed(s) && FilesExact(s.nodes) && Legal(s, ops) && AllSpareFiles(s, ops)
    ensures FilesExact(Run(s, ops).nodes)
    decreases |ops|
  {
    if ops != [] {
      StepInv(s, ops[0]);
      StepFilesIff(s, ops[0]);
      RunFiles(Step(s, ops[0]).0, ops[1..]);
    }
  }

  /** Exact directory counts leave every directory its reserve. */
  lemma ExactReserved(nodes: seq<Node>)
    requires DirsExact(nodes)
    ensures Reserved(nodes)
  {
    forall i: nat | i < |nodes| && nodes[i].kind == Directory && nodes[i].nlink > 0 ensures Slack(nodes, i) == 0 {
      assert DirLaw(nodes, i);
    }
  }

  lemma {:induction false} RunDirectories(s: NameState, ops: seq<Op>)
    requires NameInv(s) && Closed(s) && DirsExact(s.nodes) && Sent(s, ops) && AllSpareDirectories(s, ops)
    ensures Legal(s, ops) && DirsExact(Run(s, ops).nodes)
    decreases |ops|
  {
    if ops != [] {
      ExactReserved(s.nodes);
      ReserveAllows(s, ops[0]);
      StepInv(s, ops[0]);
      StepDirsIff(s, ops[0]);
      RunDirectories(Step(s, ops[0]).0, ops[1..]);
    }
  }

  lemma InitExact()
    ensures FilesExact(Init().nodes) && DirsExact(Init().nodes)
  {
    forall i: nat | i < 2 ensures Refs(Init().nodes, i) == {} && Subdirs(Init().nodes, i) == {} {
    }
  }

  /** In every legal run from mounting that overwrites no file's entry, every file's link count
      is the number of entries that name it. */
  lemma FileCountsFromInit(ops: seq<Op>)
    requires Legal(Init(), ops) && AllSpareFiles(Init(), ops)
    ensures FilesExact(Run(Init(), ops).nodes)
  {
    InitInv();
    InitExact();
    RunFiles(Init(), ops);
  }

  /** In every run from mounting that a kernel sends and that overwrites no directory's entry and
      moves no directory to another parent, every linked directory has its two links (the root
      three) and one for each subdirectory; and such a run is legal. */
  lemma DirectoryCountsFromInit(ops: seq<Op>)
    requires Sent(Init(), ops) && AllSpareDirectories(Init(), ops)
    ensures Legal(Init(), ops) && DirsExact(Run(Init(), ops).nodes)
  {
    InitInv();
    InitExact();
    RunDirectories(Init(), ops);
  }
}
