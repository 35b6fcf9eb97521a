/** The invariant of the inode table and name space, and precisely which of the requests that a
    kernel following its own rules can send keep it. */
module NameSafety {
  import opened NameSpace
  import opened References

  /** What holds of inode `i` when `refs` entries point to it. */
  ghost predicate NodeLaw(node: Node, i: nat, refs: nat) {
    && node.ino == i
    && (i == 0 ==> node.kind == Special && node.nlink == 0 && node.nlookup == 0)
    && (i == 1 ==> node.kind == Directory && node.nlink > 0 && refs == 0)
    && (node.nlink == 0 ==> refs == 0)
    && (node.kind != Directory ==> node.children == map[] && refs <= node.nlink)
    && (node.kind == Directory ==> refs <= 1)
    && (node.kind == Directory && node.nlink == 0 ==> node.children == map[])
  }

  ghost predicate NodeOk(nodes: seq<Node>, i: nat)
    requires i < |nodes|
  {
    NodeLaw(nodes[i], i, |Refs(nodes, i)|)
  }

  predicate ProperName(name: string) { name != "." && name != ".." }

  ghost predicate EntriesOk(nodes: seq<Node>) {
    && EntriesInRange(nodes)
    && forall d, n :: 0 <= d < |nodes| && n in nodes[d].children ==> ProperName(n)
  }

  ghost predicate TableOk(nodes: seq<Node>) {
    && |nodes| >= 2
    && EntriesOk(nodes)
    && forall i: nat :: i < |nodes| ==> NodeOk(nodes, i)
  }

  /** Neither linked nor held by the kernel. */
  predicate Dead(node: Node) { node.nlink == 0 && node.nlookup == 0 }

  ghost predicate NoDuplicates(q: seq<nat>) {
    forall i, j :: 0 <= i < j < |q| ==> q[i] != q[j]
  }

  /** The queue holds exactly the dead inodes, each once. */
  ghost predicate QueueExact(s: NameState) {
    && NoDuplicates(s.queue)
    && (forall i: nat :: i in s.queue <==> 1 <= i < |s.nodes| && Dead(s.nodes[i]))
  }

  ghost predicate NameInv(s: NameState) {
    && TableOk(s.nodes)
    && QueueExact(s)
    && (!s.reclaiming ==> |s.queue| <= RECLAMATION_THRESHOLD)
  }

  lemma InvClosed(s: NameState)
    requires NameInv(s)
    ensures Closed(s)
  {
    forall k | 0 <= k < |s.queue| ensures s.queue[k] < |s.nodes| {
      assert s.queue[k] in s.queue;
    }
  }

  lemma InitInv()
    ensures NameInv(Init())
  {
    forall i: nat | i < 2 ensures Refs(Init().nodes, i) == {} {
    }
  }

  /** An entry is a reference, so whatever it names has a link. */
  lemma NamedHasLink(nodes: seq<Node>, d: nat, name: string)
    requires TableOk(nodes) && d < |nodes| && name in nodes[d].children
    ensures var i := nodes[d].children[name];
            && (d, name) in Refs(nodes, i)
            && i > 1
            && nodes[i].nlink > 0
            && (nodes[i].kind == Directory ==> Refs(nodes, i) == {(d, name)})
  {
    var i := nodes[d].children[name];
    assert (d, name) in Refs(nodes, i);
    SubsetSize({(d, name)}, Refs(nodes, i));
    assert NodeOk(nodes, i);
  }

  lemma QueueKept(s: NameState, nodes: seq<Node>)
    requires QueueExact(s) && |nodes| == |s.nodes|
    requires forall i :: 0 <= i < |nodes| ==> (Dead(nodes[i]) <==> Dead(s.nodes[i]))
    ensures QueueExact(s.(nodes := nodes))
  {
  }

  /** Tables that differ only in lookup counts. */
  lemma SameLinksOk(a: seq<Node>, b: seq<Node>)
    requires TableOk(a) && |a| == |b|
    requires forall i :: 0 <= i < |a| ==> b[i] == a[i].(nlookup := b[i].nlookup)
    requires b[0] == a[0]
    ensures TableOk(b)
  {
    forall i: nat | i < |b| ensures NodeOk(b, i) {
      assert NodeOk(a, i);
      SameEntriesRefs(a, b, i);
    }
  }

  // ---- what the kernel promises ----

  /** A directory handed to a handler as a parent still has links. */
  predicate LinkedParent(s: NameState, d: nat) {
    IsDirectory(s.nodes, d) ==> s.nodes[d].nlink > 0
  }

  /** The new name of a rename stands for the directory that the old name is in. */
  predicate NamesParent(s: NameState, parent: nat, newparent: nat, newname: string) {
    newparent < |s.nodes| && newname in s.nodes[newparent].children && s.nodes[newparent].children[newname] == parent
  }

  /** The rules that a kernel follows by itself when it sends a request. */
  predicate KernelSends(s: NameState, op: Op)
    requires Closed(s)
  {
    match op
    case Lookup(parent, name) => true
    case Forget(ino, count) =>
      ino < |s.nodes| && count <= s.nodes[ino].nlookup && (ino == 1 || s.nodes[ino].nlookup > 0)
    case Mknod(parent, name, kind) => LinkedParent(s, parent) && ProperName(name)
    case Mkdir(parent, name) => LinkedParent(s, parent) && ProperName(name)
    case Create(parent, name) => LinkedParent(s, parent) && ProperName(name)
    case MakeSymlink(parent, name) => LinkedParent(s, parent) && ProperName(name)
    case Unlink(parent, name) =>
      parent < |s.nodes| && name in s.nodes[parent].children ==>
        var target := s.nodes[s.nodes[parent].children[name]];
        target.kind != Directory && target.nlookup > 0
    case Rmdir(parent, name) =>
      parent < |s.nodes| && name in s.nodes[parent].children ==>
        s.nodes[s.nodes[parent].children[name]].nlookup > 0
    case Rename(parent, name, newparent, newname) =>
      LinkedParent(s, newparent) && ProperName(newname) && !NamesParent(s, parent, newparent, newname)
    case Link(ino, newparent, newname) =>
      && LinkedParent(s, newparent) && ProperName(newname)
      && (ino < |s.nodes| ==> s.nodes[ino].kind != Directory && s.nodes[ino].nlookup > 0)
  }

  /** The request removes a directory. */
  predicate Removes(s: NameState, parent: nat, name: string)
    requires Closed(s)
  {
    FuseRmdir(s, parent, name).1 == [Success]
  }

  /** The rename is from one directory to another and takes the place of a directory there. */
  predicate Supplants(s: NameState, parent: nat, name: string, newparent: nat, newname: string)
    requires Closed(s)
  {
    && IsDirectory(s.nodes, parent) && name in s.nodes[parent].children && IsDirectory(s.nodes, newparent)
    && parent != newparent && ReplacesDirectory(s, newparent, newname)
  }

  /** The request takes a link from the directory that it takes an entry from. */
  predicate TakesLink(s: NameState, op: Op)
    requires Closed(s)
    ensures TakesLink(s, op) ==> (op.Rmdir? || op.Rename?) && op.parent < |s.nodes|
  {
    match op
    case Rmdir(parent, name) => Removes(s, parent, name)
    case Rename(parent, name, newparent, newname) => Supplants(s, parent, name, newparent, newname)
    case _ => false
  }

  /** Directory `d` can lose a link together with its entry `name`: it has another one, or it
      is a leftover that nobody names, that has no other entry, and that the kernel holds. */
  ghost predicate SparesLink(s: NameState, d: nat, name: string)
    requires d < |s.nodes|
  {
    || s.nodes[d].nlink >= 2
    || (d != 1 && Refs(s.nodes, d) == {} && s.nodes[d].children.Keys == {name} && s.nodes[d].nlookup > 0)
  }

  /** The kernel's rules, and the one that it does not know: the two handlers that take a link
      from the parent find one to spare. */
  ghost predicate KernelAllows(s: NameState, op: Op)
    requires Closed(s)
  {
    KernelSends(s, op) && (TakesLink(s, op) ==> SparesLink(s, op.parent, op.name))
  }

  // ---- each handler keeps the invariant ----

  lemma LookupInv(s: NameState, parent: nat, name: string)
    requires NameInv(s) && Closed(s)
    ensures NameInv(FuseLookup(s, parent, name).0)
  {
    var after := FuseLookup(s, parent, name).0;
    if IsDirectory(s.nodes, parent) && name in s.nodes[parent].children {
      NamedHasLink(s.nodes, parent, name);
      SameLinksOk(s.nodes, after.nodes);
      QueueKept(s, after.nodes);
    }
  }

  lemma PushQueue(s: NameState, nodes: seq<Node>, ino: nat)
    requires QueueExact(s) && |nodes| == |s.nodes| && 1 <= ino < |nodes|
    requires !Dead(s.nodes[ino]) && Dead(nodes[ino])
    requires forall i :: 0 <= i < |nodes| && i != ino ==> nodes[i] == s.nodes[i]
    ensures QueueExact(NameState(nodes, s.queue + [ino], true))
  {
    forall i: nat ensures i in s.queue + [ino] <==> 1 <= i < |nodes| && Dead(nodes[i]) {
      assert i in s.queue + [ino] <==> i in s.queue || i == ino;
    }
  }

  lemma ForgetInv(s: NameState, ino: nat, count: nat)
    requires NameInv(s) && Closed(s) && KernelAllows(s, Forget(ino, count))
    ensures NameInv(FuseForget(s, ino, count).0)
  {
    var after := FuseForget(s, ino, count).0;
    assert NodeOk(s.nodes, ino) && NodeOk(s.nodes, 0) && NodeOk(s.nodes, 1);
    SameLinksOk(s.nodes, after.nodes);
    if Dead(after.nodes[ino]) {
      PushQueue(s, after.nodes, ino);
    } else {
      QueueKept(s, after.nodes);
    }
  }

  /** The inode handed out by the allocator: never the special inode or the root, not
      referred to, without entries, and not held by anybody. */
  lemma NextInodeUnused(s: NameState)
    requires NameInv(s) && Closed(s)
    ensures NextInode(s) >= 2
    ensures Refs(s.nodes, NextInode(s)) == {}
    ensures NextInode(s) < |s.nodes| ==>
              Dead(s.nodes[NextInode(s)]) && s.nodes[NextInode(s)].children == map[]
  {
    var ino := NextInode(s);
    if Reclaiming(s) {
      assert ino in s.queue;
      assert NodeOk(s.nodes, ino) && NodeOk(s.nodes, 1);
    } else {
      AppendRefs(s.nodes, FreshNode(ino, Regular, 1), ino);
    }
  }

  lemma RegisterRefs(s: NameState, kind: Kind, nlink: nat, i: nat)
    requires NameInv(s) && Closed(s)
    ensures var after := RegisterINode(s, kind, nlink);
            && Refs(after.nodes, i) == Refs(s.nodes, i)
            && (i < |s.nodes| && i != NextInode(s) ==> Subdirs(after.nodes, i) == Subdirs(s.nodes, i))
            && (i == NextInode(s) ==> Subdirs(after.nodes, i) == {})
  {
    NextInodeUnused(s);
    var ino := NextInode(s);
    var node := FreshNode(ino, kind, nlink);
    if Reclaiming(s) {
      ReplaceRefs(s.nodes, ino, node, i);
      ReplaceRefs(s.nodes, ino, node, ino);
    } else {
      AppendRefs(s.nodes, node, i);
      AppendRefs(s.nodes, node, ino);
    }
  }

  lemma RegisterTableOk(s: NameState, kind: Kind, nlink: nat)
    requires NameInv(s) && Closed(s) && nlink > 0 && (kind == Directory ==> nlink == 2)
    ensures TableOk(RegisterINode(s, kind, nlink).nodes)
  {
    var after := RegisterINode(s, kind, nlink);
    NextInodeUnused(s);
    forall i: nat | i < |after.nodes| ensures NodeOk(after.nodes, i) {
      RegisterRefs(s, kind, nlink, i);
      if i != NextInode(s) { assert NodeOk(s.nodes, i); }
    }
  }

  lemma RegisterQueue(s: NameState, kind: Kind, nlink: nat)
    requires NameInv(s) && Closed(s) && nlink > 0
    ensures QueueExact(RegisterINode(s, kind, nlink))
    ensures !RegisterINode(s, kind, nlink).reclaiming ==>
              |RegisterINode(s, kind, nlink).queue| <= RECLAMATION_THRESHOLD
  {
    var after := RegisterINode(s, kind, nlink);
    forall i: nat ensures i in after.queue <==> 1 <= i < |after.nodes| && Dead(after.nodes[i]) {
      if Reclaiming(s) {
        assert i in s.queue <==> i == s.queue[0] || i in s.queue[1..];
        assert s.queue[0] !in s.queue[1..];
      }
    }
  }

  /** A table with one entry put in, and otherwise only link counts of the parent and counts
      of the child raised. */
  lemma PutEntryOk(nodes: seq<Node>, after: seq<Node>, d: nat, name: string, child: nat)
    requires TableOk(nodes) && d < |nodes| && 1 < child < |nodes| && d != child
    requires IsDirectory(nodes, d) && nodes[d].nlink > 0 && ProperName(name)
    requires SameEntries(after, PutEntry(nodes, d, name, child))
    requires forall i :: 0 <= i < |nodes| && i != d && i != child ==> after[i] == nodes[i]
    requires after[d].ino == d && after[d].nlink >= nodes[d].nlink
    requires after[child].ino == child && after[child].nlink >= nodes[child].nlink > 0
    requires IsDirectory(nodes, child) ==> Refs(nodes, child) == {}
    requires |Refs(nodes, child)| < after[child].nlink
    ensures TableOk(after)
  {
    forall i: nat | i < |after| ensures NodeOk(after, i) {
      assert NodeOk(nodes, i);
      SameEntriesRefs(after, PutEntry(nodes, d, name, child), i);
      PutEntryRefs(nodes, d, name, child, i);
      SubsetSize(Refs(nodes, i) - {(d, name)}, Refs(nodes, i));
    }
  }

  lemma AddNewInv(s: NameState, parent: nat, name: string, kind: Kind)
    requires NameInv(s) && Closed(s) && IsDirectory(s.nodes, parent)
    requires s.nodes[parent].nlink > 0 && ProperName(name)
    ensures NameInv(AddNew(s, parent, name, kind).0)
  {
    var nlink := if kind == Directory then 2 else 1;
    var ino, registered := NextInode(s), RegisterINode(s, kind, nlink);
    var after := AddNew(s, parent, name, kind).0;
    NextInodeUnused(s);
    RegisterTableOk(s, kind, nlink);
    RegisterQueue(s, kind, nlink);
    RegisterRefs(s, kind, nlink, ino);
    assert ino != parent && registered.nodes[parent] == s.nodes[parent];
    assert NodeOk(s.nodes, parent);
    PutEntryOk(registered.nodes, after.nodes, parent, name, ino);
    QueueKept(registered, after.nodes);
  }

  lemma LinkInv(s: NameState, ino: nat, newparent: nat, newname: string)
    requires NameInv(s) && Closed(s) && KernelAllows(s, Link(ino, newparent, newname))
    ensures NameInv(FuseLink(s, ino, newparent, newname).0)
  {
    var after := FuseLink(s, ino, newparent, newname).0;
    if IsDirectory(s.nodes, newparent) && ino < |s.nodes| {
      assert NodeOk(s.nodes, ino) && NodeOk(s.nodes, 1);
      LinkEntryOk(s.nodes, after.nodes, newparent, newname, ino);
      QueueKept(s, after.nodes);
    }
  }

  /** A new entry for something that is not a directory and may have lost all its links. */
  lemma LinkEntryOk(nodes: seq<Node>, after: seq<Node>, d: nat, name: string, child: nat)
    requires TableOk(nodes) && d < |nodes| && 1 < child < |nodes|
    requires IsDirectory(nodes, d) && nodes[d].nlink > 0 && ProperName(name) && !IsDirectory(nodes, child)
    requires after == PutEntry(nodes, d, name, child)[child := nodes[child].AddHardLink().Lookup()]
    ensures TableOk(after)
  {
    forall i: nat | i < |after| ensures NodeOk(after, i) {
      assert NodeOk(nodes, i);
      SameEntriesRefs(after, PutEntry(nodes, d, name, child), i);
      PutEntryRefs(nodes, d, name, child, i);
      SubsetSize(Refs(nodes, i) - {(d, name)}, Refs(nodes, i));
    }
  }

  lemma UnlinkInv(s: NameState, parent: nat, name: string)
    requires NameInv(s) && Closed(s) && KernelAllows(s, Unlink(parent, name))
    ensures NameInv(FuseUnlink(s, parent, name).0)
  {
    var after := FuseUnlink(s, parent, name).0;
    if IsDirectory(s.nodes, parent) && name in s.nodes[parent].children {
      var ino := s.nodes[parent].children[name];
      NamedHasLink(s.nodes, parent, name);
      forall i: nat | i < |after.nodes| ensures NodeOk(after.nodes, i) {
        assert NodeOk(s.nodes, i);
        DroppedRefs(s.nodes, after.nodes, parent, name, i);
      }
      QueueKept(s, after.nodes);
    }
  }

  /** Dropping an entry takes one reference from its target and none from anybody else. */
  lemma DroppedRefs(nodes: seq<Node>, after: seq<Node>, d: nat, name: string, i: nat)
    requires d < |nodes| && i < |nodes| && name in nodes[d].children
    requires SameEntries(after, DropEntry(nodes, d, name))
    ensures |Refs(after, i)| == |Refs(nodes, i)| - (if i == nodes[d].children[name] then 1 else 0)
    ensures |Subdirs(after, i)| ==
            |Subdirs(nodes, i)| - (if i == d && IsDirectory(nodes, nodes[d].children[name]) then 1 else 0)
  {
    SameEntriesRefs(after, DropEntry(nodes, d, name), i);
    DropEntryRefs(nodes, d, name, i);
    DropEntrySubdirs(nodes, d, name, i);
    assert (d, name) in Refs(nodes, i) <==> i == nodes[d].children[name];
    assert i == d ==> (name in Subdirs(nodes, d) <==> IsDirectory(nodes, nodes[d].children[name]));
    assert (d, name) !in Refs(nodes, i) ==> Refs(nodes, i) - {(d, name)} == Refs(nodes, i);
    assert name !in Subdirs(nodes, i) ==> Subdirs(nodes, i) - {name} == Subdirs(nodes, i);
  }

  lemma EmptyDirectory(nodes: seq<Node>, i: nat)
    requires EntriesOk(nodes) && i < |nodes| && !nodes[i].HasChildren()
    ensures nodes[i].children == map[]
  {
    assert forall n :: n in nodes[i].children ==> ProperName(n);
    assert nodes[i].children.Keys == {};
  }

  /** Dropping the entry of an empty directory that loses all its links with it. */
  lemma RemoveDirectoryOk(nodes: seq<Node>, after: seq<Node>, d: nat, name: string)
    requires TableOk(nodes) && d < |nodes| && name in nodes[d].children
    requires var t := nodes[d].children[name];
             && IsDirectory(nodes, t) && nodes[t].children == map[] && t != d
             && SameEntries(after, DropEntry(nodes, d, name))
             && (forall i :: 0 <= i < |nodes| && i != d && i != t ==> after[i] == nodes[i])
             && after[d].ino == d && after[t].ino == t && after[t].nlink == 0
    requires after[d].nlink > 0 || (d != 1 && Refs(nodes, d) == {} && nodes[d].children.Keys == {name})
    ensures TableOk(after)
  {
    NamedHasLink(nodes, d, name);
    forall i: nat | i < |after| ensures NodeOk(after, i) {
      assert NodeOk(nodes, i);
      DroppedRefs(nodes, after, d, name, i);
      if i == d { OnlyEntry(nodes[d], name); }
    }
  }

  lemma OnlyEntry(node: Node, name: string)
    ensures node.children.Keys == {name} ==> node.DeleteChild(name).children == map[]
    ensures name in node.children && node.DeleteChild(name).children == map[] ==> node.children.Keys == {name}
  {
    assert node.DeleteChild(name).children.Keys == node.children.Keys - {name};
    if node.DeleteChild(name).children == map[] { assert node.children.Keys - {name} == {}; }
  }

  /** What a removal does: the parent loses the entry and a link, the directory all its links. */
  lemma RemovalEffect(s: NameState, parent: nat, name: string)
    requires NameInv(s) && Closed(s) && Removes(s, parent, name)
    ensures parent < |s.nodes| && name in s.nodes[parent].children && s.nodes[parent].nlink > 0
    ensures var after, ino := FuseRmdir(s, parent, name).0, s.nodes[parent].children[name];
            && IsDirectory(s.nodes, ino) && ino != parent && s.nodes[ino].children == map[] && s.nodes[ino].nlink > 0
            && after.queue == s.queue && after.reclaiming == s.reclaiming
            && SameEntries(after.nodes, DropEntry(s.nodes, parent, name))
            && (forall i :: 0 <= i < |s.nodes| && i != parent && i != ino ==> after.nodes[i] == s.nodes[i])
            && after.nodes[parent].ino == s.nodes[parent].ino
            && after.nodes[parent].nlookup == s.nodes[parent].nlookup
            && after.nodes[parent].nlink == s.nodes[parent].nlink - 1
            && after.nodes[ino].ino == s.nodes[ino].ino && after.nodes[ino].nlookup == s.nodes[ino].nlookup
            && after.nodes[ino].nlink == 0
  {
    NamedHasLink(s.nodes, parent, name);
    EmptyDirectory(s.nodes, s.nodes[parent].children[name]);
    assert NodeOk(s.nodes, parent);
  }

  lemma RmdirSpared(s: NameState, parent: nat, name: string)
    requires NameInv(s) && Closed(s) && KernelSends(s, Rmdir(parent, name)) && Removes(s, parent, name)
    requires parent < |s.nodes| && SparesLink(s, parent, name)
    ensures NameInv(FuseRmdir(s, parent, name).0)
  {
    var after := FuseRmdir(s, parent, name).0;
    RemovalEffect(s, parent, name);
    assert NodeOk(s.nodes, parent) && NodeOk(s.nodes, s.nodes[parent].children[name]);
    RemoveDirectoryOk(s.nodes, after.nodes, parent, name);
    QueueKept(s, after.nodes);
  }

  /** A removal that the kernel sends keeps the invariant precisely when the parent can spare
      the link. */
  lemma RmdirInvIff(s: NameState, parent: nat, name: string)
    requires NameInv(s) && Closed(s) && KernelSends(s, Rmdir(parent, name)) && Removes(s, parent, name)
    ensures parent < |s.nodes|
    ensures NameInv(FuseRmdir(s, parent, name).0) <==> SparesLink(s, parent, name)
    ensures parent == 1 || Refs(s.nodes, parent) != {} ==>
              (NameInv(FuseRmdir(s, parent, name).0) <==> s.nodes[parent].nlink >= 2)
  {
    var after := FuseRmdir(s, parent, name).0;
    RemovalEffect(s, parent, name);
    if SparesLink(s, parent, name) {
      RmdirSpared(s, parent, name);
    } else if NameInv(after) {
      DroppedRefs(s.nodes, after.nodes, parent, name, parent);
      LastLink(s, after, parent, name);
      assert false;
    }
  }

  /** A directory that loses an entry and its last link breaks the invariant unless it is a
      leftover that the kernel holds. */
  lemma LastLink(s: NameState, after: NameState, d: nat, name: string)
    requires NameInv(s) && NameInv(after) && d < |s.nodes| == |after.nodes| && after.queue == s.queue
    requires IsDirectory(s.nodes, d) && name in s.nodes[d].children && s.nodes[d].nlink == 1
    requires after.nodes[d].children == s.nodes[d].DeleteChild(name).children && after.nodes[d].kind == Directory
    requires after.nodes[d].nlink == 0 && after.nodes[d].nlookup == s.nodes[d].nlookup
    requires |Refs(after.nodes, d)| == |Refs(s.nodes, d)|
    ensures SparesLink(s, d, name)
  {
    assert NodeOk(after.nodes, d) && NodeOk(s.nodes, d) && NodeOk(s.nodes, 0);
    OnlyEntry(s.nodes[d], name);
    assert d in after.queue <==> Dead(after.nodes[d]);
    assert d in s.queue <==> Dead(s.nodes[d]);
  }

  lemma RmdirInv(s: NameState, parent: nat, name: string)
    requires NameInv(s) && Closed(s) && KernelAllows(s, Rmdir(parent, name))
    ensures NameInv(FuseRmdir(s, parent, name).0)
  {
    if Removes(s, parent, name) { RmdirInvIff(s, parent, name); }
  }

  // ---- rename ----

  ghost function Renamed(nodes: seq<Node>, d: nat, name: string, e: nat, newname: string): seq<Node>
    requires d < |nodes| && e < |nodes| && name in nodes[d].children
  {
    DropEntry(PutEntry(nodes, e, newname, nodes[d].children[name]), d, name)
  }

  /** A rename takes one reference from whatever the new name pointed to before, even when
      that is the renamed inode itself. */
  lemma RenamedRefs(nodes: seq<Node>, d: nat, name: string, e: nat, newname: string, i: nat)
    requires d < |nodes| && e < |nodes| && name in nodes[d].children
    ensures |Refs(Renamed(nodes, d, name, e, newname), i)|
            == |Refs(nodes, i)| - Flag((e, newname) in Refs(nodes, i))
  {
    var child := nodes[d].children[name];
    var r, put := Refs(nodes, i), PutEntry(nodes, e, newname, child);
    PutEntryRefs(nodes, e, newname, child, i);
    DropEntryRefs(put, d, name, i);
    assert (d, name) in r <==> i == child;
    var kept := r - {(e, newname)};
    if i == child {
      var both := (kept + {(e, newname)}) - {(d, name)};
      if (d, name) == (e, newname) {
        assert both == kept;
      } else {
        assert |kept + {(e, newname)}| == |kept| + 1;
        assert (d, name) in kept + {(e, newname)};
      }
    } else {
      assert (kept + {}) - {(d, name)} == kept;
    }
  }

  lemma RelinkedCounts(s: NameState, parent: nat, newparent: nat, newname: string, i: nat)
    requires Closed(s) && i < |s.nodes| && parent < |s.nodes| && newparent < |s.nodes|
    requires s.nodes[parent].nlink >= 1
    ensures var after := RelinkedParents(s, parent, newparent, newname);
            var shifts := parent != newparent && ReplacesDirectory(s, newparent, newname);
            && |after| == |s.nodes|
            && after[i] == s.nodes[i].(marked := after[i].marked, nlink := after[i].nlink)
            && after[i].nlink == s.nodes[i].nlink + Flag(shifts && i == newparent) - Flag(shifts && i == parent)
  {
  }

  lemma ParentHasLink(s: NameState, parent: nat, name: string)
    requires NameInv(s) && parent < |s.nodes| && name in s.nodes[parent].children
    ensures IsDirectory(s.nodes, parent) && s.nodes[parent].nlink >= 1
  {
    assert NodeOk(s.nodes, parent);
  }

  /** The successful rename as a change of entries and of two link counts. */
  lemma RenameEffect(s: NameState, parent: nat, name: string, newparent: nat, newname: string)
    requires NameInv(s) && Closed(s)
    requires IsDirectory(s.nodes, parent) && IsDirectory(s.nodes, newparent)
    requires name in s.nodes[parent].children
    ensures s.nodes[parent].nlink >= 1
    ensures var after := FuseRename(s, parent, name, newparent, newname).0.nodes;
            var shifts := parent != newparent && ReplacesDirectory(s, newparent, newname);
            && SameEntries(after, Renamed(s.nodes, parent, name, newparent, newname))
            && forall i :: 0 <= i < |after| ==>
                             && after[i].ino == s.nodes[i].ino
                             && after[i].nlookup == s.nodes[i].nlookup
                             && after[i].nlink
                                == s.nodes[i].nlink + Flag(shifts && i == newparent) - Flag(shifts && i == parent)
  {
    ParentHasLink(s, parent, name);
    forall i: nat | i < |s.nodes|
      ensures var after := RelinkedParents(s, parent, newparent, newname);
              var shifts := parent != newparent && ReplacesDirectory(s, newparent, newname);
              && after[i] == s.nodes[i].(marked := after[i].marked, nlink := after[i].nlink)
              && after[i].nlink == s.nodes[i].nlink + Flag(shifts && i == newparent) - Flag(shifts && i == parent)
    {
      RelinkedCounts(s, parent, newparent, newname, i);
    }
  }

  /** References of each inode after a rename. */
  lemma RenamedRefCount(s: NameState, parent: nat, name: string, newparent: nat, newname: string, i: nat)
    requires NameInv(s) && Closed(s) && i < |s.nodes|
    requires IsDirectory(s.nodes, parent) && IsDirectory(s.nodes, newparent)
    requires name in s.nodes[parent].children
    ensures |Refs(FuseRename(s, parent, name, newparent, newname).0.nodes, i)|
            == |Refs(s.nodes, i)| - Flag((newparent, newname) in Refs(s.nodes, i))
  {
    RenameEffect(s, parent, name, newparent, newname);
    SameEntriesRefs(FuseRename(s, parent, name, newparent, newname).0.nodes,
                    Renamed(s.nodes, parent, name, newparent, newname), i);
    RenamedRefs(s.nodes, parent, name, newparent, newname, i);
  }

  lemma RenamedNodeOk(s: NameState, parent: nat, name: string, newparent: nat, newname: string, i: nat)
    requires NameInv(s) && Closed(s) && i < |s.nodes|
    requires IsDirectory(s.nodes, parent) && IsDirectory(s.nodes, newparent)
    requires name in s.nodes[parent].children && s.nodes[newparent].nlink > 0
    requires Supplants(s, parent, name, newparent, newname) ==> SparesLink(s, parent, name)
    ensures |FuseRename(s, parent, name, newparent, newname).0.nodes| == |s.nodes|
    ensures NodeOk(FuseRename(s, parent, name, newparent, newname).0.nodes, i)
  {
    RenameEffect(s, parent, name, newparent, newname);
    RenamedRefCount(s, parent, name, newparent, newname, i);
    assert NodeOk(s.nodes, i);
    if i == parent { OnlyEntry(s.nodes[parent], name); }
  }

  lemma RenameSpared(s: NameState, parent: nat, name: string, newparent: nat, newname: string)
    requires NameInv(s) && Closed(s) && ProperName(newname)
    requires IsDirectory(s.nodes, parent) && IsDirectory(s.nodes, newparent)
    requires name in s.nodes[parent].children && s.nodes[newparent].nlink > 0
    requires Supplants(s, parent, name, newparent, newname) ==> SparesLink(s, parent, name)
    ensures NameInv(FuseRename(s, parent, name, newparent, newname).0)
  {
    var after := FuseRename(s, parent, name, newparent, newname).0;
    forall i: nat | i < |after.nodes| ensures NodeOk(after.nodes, i) {
      RenamedNodeOk(s, parent, name, newparent, newname, i);
    }
    RenameEffect(s, parent, name, newparent, newname);
    QueueKept(s, after.nodes);
  }

  /** A rename that the kernel sends keeps the invariant precisely when it takes no directory's
      place in another directory or the parent can spare the link that this costs it. */
  lemma RenameInvIff(s: NameState, parent: nat, name: string, newparent: nat, newname: string)
    requires NameInv(s) && Closed(s) && KernelSends(s, Rename(parent, name, newparent, newname))
    requires IsDirectory(s.nodes, parent) && IsDirectory(s.nodes, newparent) && name in s.nodes[parent].children
    ensures NameInv(FuseRename(s, parent, name, newparent, newname).0) <==>
            (Supplants(s, parent, name, newparent, newname) ==> SparesLink(s, parent, name))
  {
    if Supplants(s, parent, name, newparent, newname) && !SparesLink(s, parent, name) {
      var after := FuseRename(s, parent, name, newparent, newname).0;
      RenameEffect(s, parent, name, newparent, newname);
      RenamedRefCount(s, parent, name, newparent, newname, parent);
      if NameInv(after) {
        LastLink(s, after, parent, name);
        assert false;
      }
    } else {
      RenameSpared(s, parent, name, newparent, newname);
    }
  }

  lemma RenameInv(s: NameState, parent: nat, name: string, newparent: nat, newname: string)
    requires NameInv(s) && Closed(s) && KernelAllows(s, Rename(parent, name, newparent, newname))
    ensures NameInv(FuseRename(s, parent, name, newparent, newname).0)
  {
    if FuseRename(s, parent, name, newparent, newname).1 == [Success] {
      RenameInvIff(s, parent, name, newparent, newname);
    }
  }

  /** Every request that the kernel's rules allow keeps the invariant. */
  lemma StepInv(s: NameState, op: Op)
    requires NameInv(s) && Closed(s) && KernelAllows(s, op)
    ensures NameInv(Step(s, op).0)
  {
    if Makes(s, op) {
      MakesAddNew(s, op);
      AddNewInv(s, op.parent, op.name, NewKind(op));
    } else {
      match op
      case Lookup(parent, name) => LookupInv(s, parent, name);
      case Forget(ino, count) => ForgetInv(s, ino, count);
      case Unlink(parent, name) => UnlinkInv(s, parent, name);
      case Rmdir(parent, name) => RmdirInv(s, parent, name);
      case Rename(parent, name, newparent, newname) => RenameInv(s, parent, name, newparent, newname);
      case Link(ino, newparent, newname) => LinkInv(s, ino, newparent, newname);
      case _ =>
    }
  }
  /** A request that the kernel sends keeps the invariant precisely when the rule that the
      kernel does not know is met as well. */
  lemma StepInvIff(s: NameState, op: Op)
    requires NameInv(s) && Closed(s) && KernelSends(s, op)
    ensures NameInv(Step(s, op).0) <==> KernelAllows(s, op)
  {
    if KernelAllows(s, op) {
      StepInv(s, op);
    } else if op.Rmdir? {
      RmdirInvIff(s, op.parent, op.name);
    } else {
      RenameInvIff(s, op.parent, op.name, op.newparent, op.newname);
    }
  }
  // ---- what is named has a link ----

  ghost predicate NamedLinked(nodes: seq<Node>)
    requires EntriesInRange(nodes)
  {
    forall d, n :: 0 <= d < |nodes| && n in nodes[d].children ==> nodes[nodes[d].children[n]].nlink > 0
  }

  /** Links and references of each inode after a request that takes a link from a directory. */
  lemma TakenLink(s: NameState, op: Op, i: nat)
    requires NameInv(s) && Closed(s) && KernelSends(s, op) && TakesLink(s, op) && i < |s.nodes|
    ensures var after := Step(s, op).0.nodes;
            && |after| == |s.nodes|
            && |Refs(after, i)| <= |Refs(s.nodes, i)|
            && (i == op.parent ==> after[i].nlink == s.nodes[i].nlink - 1 && |Refs(after, i)| == |Refs(s.nodes, i)|)
            && (i != op.parent && s.nodes[i].nlink > 0 ==> after[i].nlink > 0 || |Refs(after, i)| == 0)
  {
    if op.Rmdir? {
      RemovalEffect(s, op.parent, op.name);
      DroppedRefs(s.nodes, Step(s, op).0.nodes, op.parent, op.name, i);
      NamedHasLink(s.nodes, op.parent, op.name);
    } else {
      RenameEffect(s, op.parent, op.name, op.newparent, op.newname);
      RenamedRefCount(s, op.parent, op.name, op.newparent, op.newname, i);
    }
  }

  lemma StaysLinked(s: NameState, op: Op, d: nat, n: string)
    requires NameInv(s) && Closed(s) && KernelSends(s, op) && TakesLink(s, op)
    requires s.nodes[op.parent].nlink >= 2 || Refs(s.nodes, op.parent) == {}
    requires d < |Step(s, op).0.nodes| && n in Step(s, op).0.nodes[d].children
    ensures var after := Step(s, op).0.nodes; after[after[d].children[n]].nlink > 0
  {
    var after := Step(s, op).0.nodes;
    var i := after[d].children[n];
    TakenLink(s, op, 0);
    TakenLink(s, op, i);
    assert (d, n) in Refs(after, i);
    assert Refs(s.nodes, i) != {};
    assert NodeOk(s.nodes, i);
  }

  /** Over all requests that a kernel sends, what is named keeps having links precisely when a
      handler that takes a link from a named directory leaves it one. */
  lemma StepNamesIff(s: NameState, op: Op)
    requires NameInv(s) && Closed(s) && KernelSends(s, op)
    ensures EntriesInRange(Step(s, op).0.nodes)
    ensures NamedLinked(Step(s, op).0.nodes) <==>
            (TakesLink(s, op) ==> s.nodes[op.parent].nlink >= 2 || Refs(s.nodes, op.parent) == {})
  {
    var after := Step(s, op).0.nodes;
    if !TakesLink(s, op) {
      StepInv(s, op);
      InvNamesLinked(after);
    } else if s.nodes[op.parent].nlink >= 2 || Refs(s.nodes, op.parent) == {} {
      forall d: nat, n: string | d < |after| && n in after[d].children ensures after[after[d].children[n]].nlink > 0 {
        StaysLinked(s, op, d, n);
      }
    } else {
      TakenLink(s, op, op.parent);
      var entry :| entry in Refs(after, op.parent);
      assert after[entry.0].children[entry.1] == op.parent;
    }
  }

  lemma InvNamesLinked(nodes: seq<Node>)
    requires TableOk(nodes)
    ensures NamedLinked(nodes)
  {
    forall d: nat, n: string | d < |nodes| && n in nodes[d].children ensures nodes[nodes[d].children[n]].nlink > 0 {
      NamedHasLink(nodes, d, n);
    }
  }
}
