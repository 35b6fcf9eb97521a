/** The path names that directories carry in the peer-to-peer version: set when a directory
    is made, never updated, and sent to other peers to say where a request belongs. */
module PathNames {
  import opened NameSpace
  import opened References
  import opened NameSafety
  import opened NameRuns
  import opened LinkReserve
  import opened LinkLaw

  /** A name that can be one component of a path. */
  predicate FileName(name: string) { name != "" && '/' !in name }

  // ---- how a kernel reads a path ----

  /** Number of characters behind the last slash. */
  function TailLength(path: string): (n: nat)
    ensures n <= |path|
  {
    if path == "" || path[|path| - 1] == '/' then 0 else 1 + TailLength(path[..|path| - 1])
  }

  /** The names between the slashes; empty ones do not count. */
  function Components(path: string): seq<string>
    decreases |path|
  {
    if path == "" then []
    else if path[|path| - 1] == '/' then Components(path[..|path| - 1])
    else
      var start := |path| - TailLength(path);
      Components(path[..start]) + [path[start..]]
  }

  datatype Found = Missing | Found(ino: nat)

  /** Walking from the root, one component at a time. */
  function Walk(nodes: seq<Node>, components: seq<string>): Found {
    if components == [] then Found(1)
    else
      var front, name := components[..|components| - 1], components[|components| - 1];
      match Walk(nodes, front)
      case Missing => Missing
      case Found(d) =>
        if IsDirectory(nodes, d) && name in nodes[d].children then Found(nodes[d].children[name]) else Missing
  }

  predicate EndsInSlash(path: string) { path != "" && path[|path| - 1] == '/' }

  lemma {:induction false} TailOfName(dir: string, name: string)
    requires EndsInSlash(dir) && '/' !in name
    ensures TailLength(dir + name) == |name|
  {
    if name == "" {
      assert dir + name == dir;
    } else {
      var front := name[..|name| - 1];
      assert (dir + name)[..|dir + name| - 1] == dir + front;
      TailOfName(dir, front);
    }
  }

  /** A name behind a directory's path is one more component, with or without a closing slash. */
  lemma ComponentsOfChild(dir: string, name: string)
    requires EndsInSlash(dir) && FileName(name)
    ensures Components(dir + name) == Components(dir) + [name]
    ensures Components(dir + name + "/") == Components(dir) + [name]
  {
    TailOfName(dir, name);
    assert (dir + name)[..|dir|] == dir && (dir + name)[|dir|..] == name;
    assert (dir + name)[|dir + name| - 1] == name[|name| - 1];
    assert (dir + name + "/")[..|dir + name|] == dir + name;
  }

  // ---- the paths that directories carry ----

  /** What a request does to the stored paths: only mkdir sets one. */
  function NextPaths(s: NameState, paths: seq<string>, op: Op): (after: seq<string>)
    requires Closed(s) && |paths| == |s.nodes| && (op.Forget? ==> op.ino < |s.nodes|)
    ensures |after| == |Step(s, op).0.nodes|
  {
    TableGrowth(s, op);
    if Makes(s, op) then
      var path := if op.Mkdir? then paths[op.parent] + op.name + "/" else "";
      if Reclaiming(s) then paths[NextInode(s) := path] else paths + [path]
    else paths
  }

  ghost predicate EntryLaw(nodes: seq<Node>, paths: seq<string>, d: nat, name: string)
    requires d < |nodes| == |paths| && name in nodes[d].children
  {
    var i := nodes[d].children[name];
    FileName(name) && (IsDirectory(nodes, i) ==> paths[i] == paths[d] + name + "/")
  }

  ghost predicate EntryLaws(nodes: seq<Node>, paths: seq<string>) {
    && |paths| == |nodes| > 1 && paths[1] == "/"
    && forall d: nat, name: string :: d < |nodes| && name in nodes[d].children ==> EntryLaw(nodes, paths, d, name)
  }

  /** Every linked directory but the root, leaving out `x`, is somebody's entry. */
  ghost predicate Anchored(nodes: seq<Node>, x: nat) {
    forall i: nat :: 1 < i < |nodes| && i != x && nodes[i].kind == Directory && nodes[i].nlink > 0 ==>
      |Refs(nodes, i)| > 0
  }

  /** Each entry for a directory has the path of its parent plus its own name, and each
      linked directory has such an entry. */
  ghost predicate PathInv(nodes: seq<Node>, paths: seq<string>) {
    EntryLaws(nodes, paths) && Anchored(nodes, 0)
  }

  /** A linked directory other than the root has a linked parent and a longer path. */
  lemma ParentOf(nodes: seq<Node>, paths: seq<string>, i: nat) returns (d: nat, name: string)
    requires TableOk(nodes) && PathInv(nodes, paths)
    requires IsDirectory(nodes, i) && nodes[i].nlink > 0 && i != 1
    ensures IsDirectory(nodes, d) && nodes[d].nlink > 0
    ensures name in nodes[d].children && nodes[d].children[name] == i && FileName(name)
    ensures paths[i] == paths[d] + name + "/"
  {
    assert NodeOk(nodes, 0) && NodeOk(nodes, i);
    var entry :| entry in Refs(nodes, i);
    d, name := entry.0, entry.1;
    assert NodeOk(nodes, d);
    assert EntryLaw(nodes, paths, d, name);
  }

  /** Walking the components of a linked directory's stored path reaches that directory. */
  lemma {:induction false} PathReaches(nodes: seq<Node>, paths: seq<string>, i: nat)
    requires TableOk(nodes) && PathInv(nodes, paths)
    requires IsDirectory(nodes, i) && nodes[i].nlink > 0
    ensures EndsInSlash(paths[i])
    ensures Walk(nodes, Components(paths[i])) == Found(i)
    decreases |paths[i]|
  {
    if i == 1 {
      assert paths[1][..0] == "";
    } else {
      var d, name := ParentOf(nodes, paths, i);
      PathReaches(nodes, paths, d);
      ComponentsOfChild(paths[d], name);
      WalkChild(nodes, Components(paths[d]), name);
    }
  }

  lemma WalkChild(nodes: seq<Node>, components: seq<string>, name: string)
    ensures Walk(nodes, components + [name]) ==
            match Walk(nodes, components)
            case Missing => Missing
            case Found(d) =>
              if IsDirectory(nodes, d) && name in nodes[d].children then Found(nodes[d].children[name]) else Missing
  {
    assert (components + [name])[..|components|] == components;
  }

  /** No two linked directories carry the same path. */
  lemma PathsDiffer(nodes: seq<Node>, paths: seq<string>, i: nat, j: nat)
    requires TableOk(nodes) && PathInv(nodes, paths)
    requires IsDirectory(nodes, i) && nodes[i].nlink > 0
    requires IsDirectory(nodes, j) && nodes[j].nlink > 0
    requires paths[i] == paths[j]
    ensures i == j
  {
    PathReaches(nodes, paths, i);
    PathReaches(nodes, paths, j);
  }

  // ---- what it means that the paths are right ----

  /** The stored path of every linked directory leads to it. */
  ghost predicate PathsLead(nodes: seq<Node>, paths: seq<string>) {
    && |paths| == |nodes|
    && forall d: nat :: d < |nodes| && nodes[d].kind == Directory && nodes[d].nlink > 0 ==>
                          Walk(nodes, Components(paths[d])) == Found(d)
  }

  lemma InvLeads(nodes: seq<Node>, paths: seq<string>)
    requires TableOk(nodes) && PathInv(nodes, paths)
    ensures PathsLead(nodes, paths)
  {
    forall d: nat | d < |nodes| && nodes[d].kind == Directory && nodes[d].nlink > 0
      ensures Walk(nodes, Components(paths[d])) == Found(d)
    {
      PathReaches(nodes, paths, d);
    }
  }

  /** A linked directory that is nobody's entry. */
  ghost predicate Orphan(nodes: seq<Node>, i: nat) {
    1 < i < |nodes| && nodes[i].kind == Directory && nodes[i].nlink > 0 && Refs(nodes, i) == {}
  }

  lemma WalkedIsNamed(nodes: seq<Node>, components: seq<string>, i: nat)
    requires Walk(nodes, components) == Found(i) && components != []
    ensures Refs(nodes, i) != {}
  {
    var front, name := components[..|components| - 1], components[|components| - 1];
    assert (Walk(nodes, front).ino, name) in Refs(nodes, i);
  }

  /** No walk ends at an orphan. */
  lemma OrphanLost(nodes: seq<Node>, paths: seq<string>, i: nat)
    requires Orphan(nodes, i)
    ensures !PathsLead(nodes, paths)
  {
    if |paths| == |nodes| && Walk(nodes, Components(paths[i])) == Found(i) {
      WalkedIsNamed(nodes, Components(paths[i]), i);
    }
  }

  // ---- which requests keep the paths right ----

  /** The request overwrites no directory's entry, renames no directory, and makes
      directories only by mkdir. */
  predicate PathSafe(s: NameState, op: Op)
    requires Closed(s)
  {
    match op
    case Mknod(parent, name, kind) =>
      Makes(s, op) ==> kind != Directory && !NamesDirectory(s.nodes, parent, name)
    case Mkdir(parent, name) => Makes(s, op) ==> !NamesDirectory(s.nodes, parent, name)
    case Create(parent, name) => Makes(s, op) ==> !NamesDirectory(s.nodes, parent, name)
    case MakeSymlink(parent, name) => Makes(s, op) ==> !NamesDirectory(s.nodes, parent, name)
    case Link(ino, newparent, newname) =>
      IsDirectory(s.nodes, newparent) && ino < |s.nodes| ==> !NamesDirectory(s.nodes, newparent, newname)
    case Rename(parent, name, newparent, newname) =>
      FuseRename(s, parent, name, newparent, newname).1 == [Success] ==>
        !NamesDirectory(s.nodes, parent, name) && !NamesDirectory(s.nodes, newparent, newname)
    case _ => true
  }

  /** The new names of a request are single components. */
  predicate NamesFiles(op: Op) {
    match op
    case Mknod(parent, name, kind) => FileName(name)
    case Mkdir(parent, name) => FileName(name)
    case Create(parent, name) => FileName(name)
    case MakeSymlink(parent, name) => FileName(name)
    case Link(ino, newparent, newname) => FileName(newname)
    case Rename(parent, name, newparent, newname) => FileName(newname)
    case _ => true
  }

  /** Links and entries are all that the path laws look at. */
  lemma SamePaths(a: seq<Node>, b: seq<Node>, paths: seq<string>)
    requires PathInv(a, paths) && SameEntries(a, b)
    requires forall i :: 0 <= i < |a| ==> a[i].nlink == b[i].nlink
    ensures PathInv(b, paths)
  {
    forall i: nat | 1 < i < |b| && b[i].kind == Directory && b[i].nlink > 0 ensures |Refs(b, i)| > 0 {
      SameEntriesRefs(a, b, i);
    }
    forall d: nat, name: string | d < |b| && name in b[d].children ensures EntryLaw(b, paths, d, name) {
      assert EntryLaw(a, paths, d, name);
    }
  }

  /** A new entry keeps the laws if it takes no directory's place and a new directory carries
      the right path. */
  lemma PutPaths(nodes: seq<Node>, after: seq<Node>, paths: seq<string>, d: nat, name: string, child: nat)
    requires TableOk(nodes) && EntryLaws(nodes, paths) && Anchored(nodes, child)
    requires IsDirectory(nodes, d) && 1 < child < |nodes| && FileName(name) && !NamesDirectory(nodes, d, name)
    requires SameEntries(after, PutEntry(nodes, d, name, child))
    requires forall i :: 0 <= i < |nodes| ==> (after[i].nlink > 0 <==> nodes[i].nlink > 0 || i == child)
    requires IsDirectory(nodes, child) ==> Refs(nodes, child) == {} && paths[child] == paths[d] + name + "/"
    ensures PathInv(after, paths)
  {
    PutAnchored(nodes, after, d, name, child);
    PutLaws(nodes, after, paths, d, name, child);
  }

  /** A new entry that takes a directory's place leaves that directory an orphan. */
  lemma PutOver(nodes: seq<Node>, after: seq<Node>, d: nat, name: string, child: nat)
    requires TableOk(nodes) && IsDirectory(nodes, d) && child < |nodes| && NamesDirectory(nodes, d, name)
    requires SameEntries(after, PutEntry(nodes, d, name, child))
    requires forall i :: 0 <= i < |nodes| ==> (after[i].nlink > 0 <==> nodes[i].nlink > 0 || i == child)
    requires IsDirectory(nodes, child) ==> Refs(nodes, child) == {}
    ensures Orphan(after, nodes[d].children[name])
  {
    var e := nodes[d].children[name];
    NamedHasLink(nodes, d, name);
    PutCounts(nodes, after, d, name, child, e);
    assert |Refs(nodes, e)| == 1;
  }

  lemma PutAnchored(nodes: seq<Node>, after: seq<Node>, d: nat, name: string, child: nat)
    requires TableOk(nodes) && Anchored(nodes, child)
    requires d < |nodes| && 1 < child < |nodes| && !NamesDirectory(nodes, d, name)
    requires SameEntries(after, PutEntry(nodes, d, name, child))
    requires forall i :: 0 <= i < |nodes| ==> (after[i].nlink > 0 <==> nodes[i].nlink > 0 || i == child)
    requires IsDirectory(nodes, child) ==> Refs(nodes, child) == {}
    ensures Anchored(after, 0)
  {
    forall i: nat | 1 < i < |after| && after[i].kind == Directory && after[i].nlink > 0 ensures |Refs(after, i)| > 0 {
      PutCounts(nodes, after, d, name, child, i);
      assert i != child ==> (d, name) !in Refs(nodes, i);
    }
  }

  lemma PutLaws(nodes: seq<Node>, after: seq<Node>, paths: seq<string>, d: nat, name: string, child: nat)
    requires EntryLaws(nodes, paths) && d < |nodes| && child < |nodes| && FileName(name)
    requires SameEntries(after, PutEntry(nodes, d, name, child))
    requires IsDirectory(nodes, child) ==> paths[child] == paths[d] + name + "/"
    ensures EntryLaws(after, paths)
  {
    forall e: nat, n: string | e < |after| && n in after[e].children ensures EntryLaw(after, paths, e, n) {
      if (e, n) != (d, name) { assert EntryLaw(nodes, paths, e, n); }
    }
  }

  /** A new inode, before it is entered anywhere. */
  lemma RegisterPaths(s: NameState, paths: seq<string>, op: Op, kind: Kind)
    requires NameInv(s) && Closed(s) && PathInv(s.nodes, paths) && Makes(s, op)
    ensures var after := RegisterINode(s, kind, if kind == Directory then 2 else 1).nodes;
            EntryLaws(after, NextPaths(s, paths, op)) && Anchored(after, NextInode(s))
  {
    var nlink := if kind == Directory then 2 else 1;
    var after, next := RegisterINode(s, kind, nlink).nodes, NextPaths(s, paths, op);
    var ino := NextInode(s);
    NextInodeUnused(s);
    forall d: nat, name: string | d < |after| && name in after[d].children ensures EntryLaw(after, next, d, name) {
      assert EntryLaw(s.nodes, paths, d, name);
      assert s.nodes[d].children[name] != ino by {
        assert s.nodes[d].children[name] == ino ==> (d, name) in Refs(s.nodes, ino);
      }
    }
    forall i: nat | 1 < i < |after| && i != ino && after[i].kind == Directory && after[i].nlink > 0
      ensures |Refs(after, i)| > 0
    {
      RegisterRefs(s, kind, nlink, i);
    }
  }

  lemma AddNewPathsIff(s: NameState, paths: seq<string>, op: Op, parent: nat, name: string, kind: Kind)
    requires NameInv(s) && Closed(s) && PathInv(s.nodes, paths) && Makes(s, op) && ProperName(name)
    requires IsDirectory(s.nodes, parent) && FileName(name) && s.nodes[parent].nlink > 0
    requires op.Mkdir? ==> op.parent == parent && op.name == name && kind == Directory
    ensures var after, next := AddNew(s, parent, name, kind).0.nodes, NextPaths(s, paths, op);
            var safe := !NamesDirectory(s.nodes, parent, name) && (kind == Directory ==> op.Mkdir?);
            (safe ==> PathInv(after, next)) && (PathsLead(after, next) <==> safe)
  {
    var nlink := if kind == Directory then 2 else 1;
    var registered, after := RegisterINode(s, kind, nlink).nodes, AddNew(s, parent, name, kind).0.nodes;
    var next := NextPaths(s, paths, op);
    NewEntry(s, parent, name, kind);
    EntryUnaffected(s, parent, name, kind, nlink);
    NewPath(s, paths, op, parent, name);
    if NamesDirectory(s.nodes, parent, name) {
      PutOver(registered, after, parent, name, NextInode(s));
      OrphanLost(after, next, registered[parent].children[name]);
    } else if kind == Directory && !op.Mkdir? {
      assert Components(next[NextInode(s)]) == [];
    } else {
      RegisterPaths(s, paths, op, kind);
      PutPaths(registered, after, next, parent, name, NextInode(s));
      AddNewInv(s, parent, name, kind);
      InvLeads(after, next);
    }
  }

  lemma NewPath(s: NameState, paths: seq<string>, op: Op, parent: nat, name: string)
    requires Closed(s) && |paths| == |s.nodes| && Makes(s, op)
    requires parent < |s.nodes| && parent != NextInode(s) && FileName(name)
    requires op.Mkdir? ==> op.parent == parent && op.name == name
    ensures var next := NextPaths(s, paths, op);
            && parent < |next| && NextInode(s) < |next|
            && next[NextInode(s)] == if op.Mkdir? then next[parent] + name + "/" else ""
  {
  }

  lemma LinkPathsIff(s: NameState, paths: seq<string>, ino: nat, newparent: nat, newname: string)
    requires NameInv(s) && Closed(s) && PathInv(s.nodes, paths) && FileName(newname)
    requires KernelAllows(s, Link(ino, newparent, newname))
    requires IsDirectory(s.nodes, newparent) && ino < |s.nodes|
    ensures var after := FuseLink(s, ino, newparent, newname).0.nodes;
            var safe := !NamesDirectory(s.nodes, newparent, newname);
            (safe ==> PathInv(after, paths)) && (PathsLead(after, paths) <==> safe)
  {
    var after := FuseLink(s, ino, newparent, newname).0.nodes;
    LinkEffect(s, ino, newparent, newname);
    LinkedAnchored(s, paths, ino);
    if NamesDirectory(s.nodes, newparent, newname) {
      PutOver(s.nodes, after, newparent, newname, ino);
      OrphanLost(after, paths, s.nodes[newparent].children[newname]);
    } else {
      PutPaths(s.nodes, after, paths, newparent, newname, ino);
      StepInv(s, Link(ino, newparent, newname));
      InvLeads(after, paths);
    }
  }

  lemma LinkEffect(s: NameState, ino: nat, newparent: nat, newname: string)
    requires Closed(s) && IsDirectory(s.nodes, newparent) && ino < |s.nodes|
    ensures var after := FuseLink(s, ino, newparent, newname).0.nodes;
            && SameEntries(after, PutEntry(s.nodes, newparent, newname, ino))
            && forall i :: 0 <= i < |s.nodes| ==> (after[i].nlink > 0 <==> s.nodes[i].nlink > 0 || i == ino)
  {
  }

  lemma LinkedAnchored(s: NameState, paths: seq<string>, ino: nat)
    requires NameInv(s) && PathInv(s.nodes, paths) && ino < |s.nodes| && !IsDirectory(s.nodes, ino)
    requires s.nodes[ino].nlookup > 0
    ensures Anchored(s.nodes, ino) && 1 < ino
  {
    assert NodeOk(s.nodes, ino) && NodeOk(s.nodes, 0) && NodeOk(s.nodes, 1);
  }

  /** Taking out the entry of something that is no linked directory afterwards. */
  lemma DropPaths(nodes: seq<Node>, after: seq<Node>, paths: seq<string>, d: nat, name: string)
    requires TableOk(nodes) && PathInv(nodes, paths) && d < |nodes| && name in nodes[d].children
    requires SameEntries(after, DropEntry(nodes, d, name))
    requires forall i :: 0 <= i < |nodes| && after[i].kind == Directory && after[i].nlink > 0 ==>
               nodes[i].nlink > 0 && i != nodes[d].children[name]
    ensures PathInv(after, paths)
  {
    forall i: nat | 1 < i < |after| && after[i].kind == Directory && after[i].nlink > 0 ensures |Refs(after, i)| > 0 {
      DroppedRefs(nodes, after, d, name, i);
    }
    forall e: nat, n: string | e < |after| && n in after[e].children ensures EntryLaw(after, paths, e, n) {
      assert EntryLaw(nodes, paths, e, n);
    }
  }

  lemma UnlinkPaths(s: NameState, paths: seq<string>, parent: nat, name: string)
    requires NameInv(s) && Closed(s) && PathInv(s.nodes, paths) && KernelAllows(s, Unlink(parent, name))
    ensures PathInv(FuseUnlink(s, parent, name).0.nodes, paths)
  {
    if FuseUnlink(s, parent, name).1 == [Success] {
      DropPaths(s.nodes, FuseUnlink(s, parent, name).0.nodes, paths, parent, name);
    }
  }

  lemma RmdirPaths(s: NameState, paths: seq<string>, parent: nat, name: string)
    requires NameInv(s) && Closed(s) && PathInv(s.nodes, paths)
    ensures PathInv(FuseRmdir(s, parent, name).0.nodes, paths)
  {
    if FuseRmdir(s, parent, name).1 == [Success] {
      RmdirEffect(s, parent, name);
      DropPaths(s.nodes, FuseRmdir(s, parent, name).0.nodes, paths, parent, name);
    }
  }

  lemma RmdirEffect(s: NameState, parent: nat, name: string)
    requires NameInv(s) && Closed(s) && FuseRmdir(s, parent, name).1 == [Success]
    ensures parent < |s.nodes| && name in s.nodes[parent].children
    ensures var after := FuseRmdir(s, parent, name).0.nodes;
            && SameEntries(after, DropEntry(s.nodes, parent, name))
            && forall i :: 0 <= i < |after| && after[i].nlink > 0 ==>
                             s.nodes[i].nlink > 0 && i != s.nodes[parent].children[name]
  {
    RemovalEffect(s, parent, name);
  }

  // ---- rename ----

  ghost predicate Renames(s: NameState, parent: nat, name: string, newparent: nat, newname: string)
    requires Closed(s)
  {
    && IsDirectory(s.nodes, parent) && IsDirectory(s.nodes, newparent)
    && name in s.nodes[parent].children && s.nodes[newparent].nlink > 0
  }

  lemma RenameFilePaths(s: NameState, paths: seq<string>, parent: nat, name: string, newparent: nat, newname: string)
    requires NameInv(s) && Closed(s) && PathInv(s.nodes, paths) && FileName(newname)
    requires Renames(s, parent, name, newparent, newname)
    requires !NamesDirectory(s.nodes, parent, name) && !NamesDirectory(s.nodes, newparent, newname)
    ensures PathInv(FuseRename(s, parent, name, newparent, newname).0.nodes, paths)
  {
    RenameEffect(s, parent, name, newparent, newname);
    ParentHasLink(s, parent, name);
    RenameFileRefs(s, parent, name, newparent, newname);
    var after := FuseRename(s, parent, name, newparent, newname).0.nodes;
    RenameFileLaws(s.nodes, after, paths, parent, name, newparent, newname);
  }

  lemma RenameFileRefs(s: NameState, parent: nat, name: string, newparent: nat, newname: string)
    requires NameInv(s) && Closed(s) && Anchored(s.nodes, 0)
    requires Renames(s, parent, name, newparent, newname) && !NamesDirectory(s.nodes, newparent, newname)
    ensures Anchored(FuseRename(s, parent, name, newparent, newname).0.nodes, 0)
  {
    var after := FuseRename(s, parent, name, newparent, newname).0.nodes;
    RenameEffect(s, parent, name, newparent, newname);
    ParentHasLink(s, parent, name);
    forall i: nat | 1 < i < |after| && after[i].kind == Directory && after[i].nlink > 0 ensures |Refs(after, i)| > 0 {
      SameEntriesRefs(after, Renamed(s.nodes, parent, name, newparent, newname), i);
      RenamedRefs(s.nodes, parent, name, newparent, newname, i);
    }
  }

  lemma RenameFileLaws(nodes: seq<Node>, after: seq<Node>, paths: seq<string>,
                       d: nat, name: string, e: nat, newname: string)
    requires EntryLaws(nodes, paths) && d < |nodes| && e < |nodes| && name in nodes[d].children
    requires !NamesDirectory(nodes, d, name) && nodes[d].children[name] < |nodes| && FileName(newname)
    requires SameEntries(after, Renamed(nodes, d, name, e, newname))
    ensures EntryLaws(after, paths)
  {
    forall f: nat, n: string | f < |after| && n in after[f].children ensures EntryLaw(after, paths, f, n) {
      if (f, n) != (e, newname) { assert EntryLaw(nodes, paths, f, n); }
    }
  }

  /** A directory whose name is overwritten keeps its links but is nobody's entry. */
  lemma RenameOverDirectory(s: NameState, parent: nat, name: string, newparent: nat, newname: string)
    requires NameInv(s) && Closed(s) && !NamesParent(s, parent, newparent, newname)
    requires Renames(s, parent, name, newparent, newname) && NamesDirectory(s.nodes, newparent, newname)
    ensures Orphan(FuseRename(s, parent, name, newparent, newname).0.nodes, s.nodes[newparent].children[newname])
  {
    var e := s.nodes[newparent].children[newname];
    RenameEffect(s, parent, name, newparent, newname);
    NamedHasLink(s.nodes, newparent, newname);
    RenamedRefCount(s, parent, name, newparent, newname, e);
    assert |Refs(s.nodes, e)| == 1;
  }

  /** The entries above a renamed directory stay. */
  lemma EntryKept(s: NameState, paths: seq<string>, parent: nat, name: string, newparent: nat, newname: string,
                  d: nat, n: string)
    requires NameInv(s) && Closed(s) && PathInv(s.nodes, paths)
    requires Renames(s, parent, name, newparent, newname) && NamesDirectory(s.nodes, parent, name)
    requires !NamesDirectory(s.nodes, newparent, newname)
    requires d < |s.nodes| && n in s.nodes[d].children
    requires var x := s.nodes[d].children[n]; IsDirectory(s.nodes, x) && |paths[x]| <= |paths[parent]|
    ensures var after := FuseRename(s, parent, name, newparent, newname).0.nodes;
            && IsDirectory(after, d)
            && n in after[d].children && after[d].children[n] == s.nodes[d].children[n]
  {
    RenameEffect(s, parent, name, newparent, newname);
    assert EntryLaw(s.nodes, paths, parent, name);
    assert NodeOk(s.nodes, d);
  }

  /** The way to the parent of a renamed directory, and to all directories above, stays. */
  lemma {:induction false} WalkKept(s: NameState, paths: seq<string>, parent: nat, name: string,
                                    newparent: nat, newname: string, x: nat)
    requires NameInv(s) && Closed(s) && PathInv(s.nodes, paths)
    requires Renames(s, parent, name, newparent, newname) && NamesDirectory(s.nodes, parent, name)
    requires !NamesDirectory(s.nodes, newparent, newname)
    requires IsDirectory(s.nodes, x) && s.nodes[x].nlink > 0 && |paths[x]| <= |paths[parent]|
    ensures EndsInSlash(paths[x])
    ensures Walk(FuseRename(s, parent, name, newparent, newname).0.nodes, Components(paths[x])) == Found(x)
    decreases |paths[x]|
  {
    var after := FuseRename(s, parent, name, newparent, newname).0.nodes;
    PathReaches(s.nodes, paths, x);
    if x == 1 {
      assert paths[1][..0] == "";
    } else {
      var d, n := ParentOf(s.nodes, paths, x);
      WalkKept(s, paths, parent, name, newparent, newname, d);
      EntryKept(s, paths, parent, name, newparent, newname, d, n);
      ComponentsOfChild(paths[d], n);
      WalkChild(after, Components(paths[d]), n);
    }
  }

  /** A renamed directory keeps the path of its old place, where nothing is any more. */
  lemma RenameDirectory(s: NameState, paths: seq<string>, parent: nat, name: string, newparent: nat, newname: string)
    requires NameInv(s) && Closed(s) && PathInv(s.nodes, paths)
    requires Renames(s, parent, name, newparent, newname) && NamesDirectory(s.nodes, parent, name)
    requires !NamesDirectory(s.nodes, newparent, newname)
    ensures !PathsLead(FuseRename(s, parent, name, newparent, newname).0.nodes, paths)
  {
    var after := FuseRename(s, parent, name, newparent, newname).0.nodes;
    var i := s.nodes[parent].children[name];
    RenameEffect(s, parent, name, newparent, newname);
    ParentHasLink(s, parent, name);
    NamedHasLink(s.nodes, parent, name);
    WalkKept(s, paths, parent, name, newparent, newname, parent);
    assert EntryLaw(s.nodes, paths, parent, name);
    ComponentsOfChild(paths[parent], name);
    WalkChild(after, Components(paths[parent]), name);
    assert name !in after[parent].children;
    assert Walk(after, Components(paths[i])) == Missing;
  }

  /** A rename keeps the stored paths right precisely when neither the renamed inode nor the
      one it replaces is a directory. */
  lemma RenamePathsIff(s: NameState, paths: seq<string>, parent: nat, name: string, newparent: nat, newname: string)
    requires NameInv(s) && Closed(s) && PathInv(s.nodes, paths) && FileName(newname)
    requires Renames(s, parent, name, newparent, newname) && KernelAllows(s, Rename(parent, name, newparent, newname))
    ensures var after := FuseRename(s, parent, name, newparent, newname).0.nodes;
            var safe := !NamesDirectory(s.nodes, parent, name) && !NamesDirectory(s.nodes, newparent, newname);
            (safe ==> PathInv(after, paths)) && (PathsLead(after, paths) <==> safe)
  {
    var after := FuseRename(s, parent, name, newparent, newname).0.nodes;
    if NamesDirectory(s.nodes, newparent, newname) {
      RenameOverDirectory(s, parent, name, newparent, newname);
      OrphanLost(after, paths, s.nodes[newparent].children[newname]);
    } else if NamesDirectory(s.nodes, parent, name) {
      RenameDirectory(s, paths, parent, name, newparent, newname);
    } else {
      RenameFilePaths(s, paths, parent, name, newparent, newname);
      RenameInv(s, parent, name, newparent, newname);
      InvLeads(after, paths);
    }
  }

  /** A request keeps the stored paths leading to their directories precisely when it is path
      safe, and then it keeps the laws by which they do. */
  lemma StepPathsIff(s: NameState, paths: seq<string>, op: Op)
    requires NameInv(s) && Closed(s) && PathInv(s.nodes, paths) && KernelAllows(s, op) && NamesFiles(op)
    ensures PathSafe(s, op) ==> PathInv(Step(s, op).0.nodes, NextPaths(s, paths, op))
    ensures PathsLead(Step(s, op).0.nodes, NextPaths(s, paths, op)) <==> PathSafe(s, op)
  {
    StepInv(s, op);
    if Makes(s, op) {
      MakesAddNew(s, op);
      AddNewPathsIff(s, paths, op, op.parent, op.name, NewKind(op));
    } else if op.Link? {
      LinkStepPathsIff(s, paths, op.ino, op.newparent, op.newname);
    } else if op.Rename? {
      RenameStepPathsIff(s, paths, op.parent, op.name, op.newparent, op.newname);
    } else {
      QuietPaths(s, paths, op);
      InvLeads(Step(s, op).0.nodes, paths);
    }
  }

  /** Requests that put no entry anywhere. */
  lemma QuietPaths(s: NameState, paths: seq<string>, op: Op)
    requires NameInv(s) && Closed(s) && PathInv(s.nodes, paths) && KernelAllows(s, op) && !Makes(s, op)
    requires !op.Link? && !op.Rename?
    ensures PathInv(Step(s, op).0.nodes, paths)
  {
    match op
    case Lookup(parent, name) => SamePaths(s.nodes, FuseLookup(s, parent, name).0.nodes, paths);
    case Forget(ino, count) => SamePaths(s.nodes, FuseForget(s, ino, count).0.nodes, paths);
    case Unlink(parent, name) => UnlinkPaths(s, paths, parent, name);
    case Rmdir(parent, name) => RmdirPaths(s, paths, parent, name);
    case _ =>
  }

  lemma LinkStepPathsIff(s: NameState, paths: seq<string>, ino: nat, newparent: nat, newname: string)
    requires NameInv(s) && Closed(s) && PathInv(s.nodes, paths) && FileName(newname)
    requires KernelAllows(s, Link(ino, newparent, newname))
    ensures var after, op := FuseLink(s, ino, newparent, newname).0.nodes, Link(ino, newparent, newname);
            (PathSafe(s, op) ==> PathInv(after, paths)) && (PathsLead(after, paths) <==> PathSafe(s, op))
  {
    if IsDirectory(s.nodes, newparent) && ino < |s.nodes| {
      LinkPathsIff(s, paths, ino, newparent, newname);
    } else {
      InvLeads(s.nodes, paths);
    }
  }

  lemma RenameStepPathsIff(s: NameState, paths: seq<string>, parent: nat, name: string, newparent: nat, newname: string)
    requires NameInv(s) && Closed(s) && PathInv(s.nodes, paths) && FileName(newname)
    requires KernelAllows(s, Rename(parent, name, newparent, newname))
    ensures var after := FuseRename(s, parent, name, newparent, newname).0.nodes;
            var op := Rename(parent, name, newparent, newname);
            (PathSafe(s, op) ==> PathInv(after, paths)) && (PathsLead(after, paths) <==> PathSafe(s, op))
  {
    if FuseRename(s, parent, name, newparent, newname).1 == [Success] {
      RenamePathsIff(s, paths, parent, name, newparent, newname);
    } else {
      InvLeads(s.nodes, paths);
    }
  }

  // ---- whole runs ----

  ghost predicate AllPathSafe(s: NameState, ops: seq<Op>)
    requires Closed(s) && Legal(s, ops)
    decreases |ops|
  {
    ops == [] || (NamesFiles(ops[0]) && PathSafe(s, ops[0]) && AllPathSafe(Step(s, ops[0]).0, ops[1..]))
  }

  ghost function RunPaths(s: NameState, paths: seq<string>, ops: seq<Op>): (after: seq<string>)
    requires Closed(s) && |paths| == |s.nodes| && Legal(s, ops)
    decreases |ops|
  {
    if ops == [] then paths else RunPaths(Step(s, ops[0]).0, NextPaths(s, paths, ops[0]), ops[1..])
  }

  const MOUNTED_PATHS: seq<string> := ["", "/"]

  lemma MountedPaths()
    ensures PathInv(Init().nodes, MOUNTED_PATHS)
  {
  }

  lemma {:induction false} RunPathInv(s: NameState, paths: seq<string>, ops: seq<Op>)
    requires NameInv(s) && Closed(s) && PathInv(s.nodes, paths) && Legal(s, ops) && AllPathSafe(s, ops)
    ensures PathInv(Run(s, ops).nodes, RunPaths(s, paths, ops))
    decreases |ops|
  {
    if ops != [] {
      StepInv(s, ops[0]);
      StepPathsIff(s, paths, ops[0]);
      RunPathInv(Step(s, ops[0]).0, NextPaths(s, paths, ops[0]), ops[1..]);
    }
  }

  /** In every tree built by path-safe requests, walking the components of a linked
      directory's stored path from the root reaches exactly that directory. */
  lemma PathsResolve(ops: seq<Op>, d: nat)
    requires Legal(Init(), ops) && AllPathSafe(Init(), ops)
    requires var s := Run(Init(), ops); IsDirectory(s.nodes, d) && s.nodes[d].nlink > 0
    ensures d < |RunPaths(Init(), MOUNTED_PATHS, ops)|
    ensures Walk(Run(Init(), ops).nodes, Components(RunPaths(Init(), MOUNTED_PATHS, ops)[d])) == Found(d)
  {
    InitInv();
    MountedPaths();
    RunInv(Init(), ops);
    RunPathInv(Init(), MOUNTED_PATHS, ops);
    PathReaches(Run(Init(), ops).nodes, RunPaths(Init(), MOUNTED_PATHS, ops), d);
  }
}
