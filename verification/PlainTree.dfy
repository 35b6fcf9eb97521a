/** The namespace as its users see it: of what kind each inode is, and which inode each name of a
    directory stands for. No counters, no queue; the number of a new inode is given from outside. */
module PlainTree {
  import opened NameSpace
  import opened References
  import opened NameSafety

  datatype Item = Item(kind: Kind, names: map<string, nat>)

  /** Item `i` is inode number `i`. */
  type Tree = seq<Item>

  /** After mounting: the special inode, and an empty root. */
  function MountedTree(): Tree { [Item(Special, map[]), Item(Directory, map[])] }

  /** The inode that a name of `d` stands for, if any. */
  predicate Named(t: Tree, d: nat, name: string) { d < |t| && name in t[d].names }

  /** Why nothing can be done inside `d`, if so. */
  function NotInside(t: Tree, d: nat): seq<Reply> {
    if d >= |t| then [Error(ENOENT)] else if t[d].kind != Directory then [Error(EISDIR)] else []
  }

  /** Why nothing can be made, if so: first the place, then the name, then the kind. */
  function NotMade(t: Tree, op: Op): seq<Reply>
    requires op.Mknod? || op.Mkdir? || op.Create? || op.MakeSymlink?
  {
    if NotInside(t, op.parent) != [] then if op.Create? then [Error(ENOENT)] else NotInside(t, op.parent)
    else if (op.Mknod? || op.Create?) && |op.name| > MAX_FILENAME_LENGTH then [Error(ENAMETOOLONG)]
    else if op.Mknod? && op.kind != Directory && op.kind != Regular then [Error(ENOENT)]
    else []
  }

  function Put(t: Tree, d: nat, name: string, ino: nat): Tree
    requires d < |t|
  {
    t[d := t[d].(names := t[d].names[name := ino])]
  }

  function Drop(t: Tree, d: nat, name: string): Tree
    requires d < |t|
  {
    t[d := t[d].(names := t[d].names - {name})]
  }

  /** A new inode without entries. */
  function WithNew(t: Tree, number: nat, kind: Kind): (after: Tree)
    ensures |after| >= |t|
  {
    if number < |t| then t[number := Item(kind, map[])] else t + [Item(kind, map[])]
  }

  /** Whether a request makes a new inode. */
  predicate MakesNew(t: Tree, op: Op) {
    (op.Mknod? || op.Mkdir? || op.Create? || op.MakeSymlink?) && NotMade(t, op) == []
  }

  /** The tree after a request, and what the kernel is answered. */
  function ServeTree(t: Tree, op: Op, number: nat): (Tree, seq<Reply>) {
    match op
    case Lookup(d, name) => (t, if Named(t, d, name) then [Entry(t[d].names[name])] else [Error(ENOENT)])
    case Forget(_, _) => (t, [NoReply])
    case Unlink(d, name) =>
      if NotInside(t, d) != [] then (t, NotInside(t, d))
      else if !Named(t, d, name) then (t, [Error(ENOENT)])
      else (Drop(t, d, name), [Success])
    case Rmdir(d, name) =>
      if NotInside(t, d) != [] then (t, NotInside(t, d))
      else if !Named(t, d, name) then (t, [Error(ENOENT)])
      else if NotInside(t, t[d].names[name]) != [] then (t, [Error(EISDIR)])
      else if t[t[d].names[name]].names != map[] then (t, [Error(EPERM)])
      else (Drop(t, d, name), [Success])
    case Rename(d, name, e, newname) =>
      if NotInside(t, d) != [] then (t, NotInside(t, d))
      else if !Named(t, d, name) then (t, [Error(ENOENT)])
      else if NotInside(t, e) != [] then (t, NotInside(t, e))
      else (Drop(Put(t, e, newname, t[d].names[name]), d, name), [Success])
    case Link(ino, e, newname) =>
      if NotInside(t, e) != [] then (t, NotInside(t, e))
      else if ino >= |t| then (t, [Error(ENOENT)])
      else (Put(t, e, newname, ino), (if Named(t, e, newname) then [Error(EEXIST)] else []) + [Entry(ino)])
    case _ =>
      if NotMade(t, op) != [] then (t, NotMade(t, op))
      else (Put(WithNew(t, number, NewKind(op)), op.parent, op.name, number), [Entry(number)])
  }

  // ---- the inode table as a tree ----

  ghost function TreeOf(nodes: seq<Node>): (t: Tree)
    ensures |t| == |nodes|
  {
    seq(|nodes|, i requires 0 <= i < |nodes| => Item(nodes[i].kind, nodes[i].children))
  }

  lemma MakesIff(s: NameState, op: Op)
    requires Closed(s)
    ensures Makes(s, op) <==> MakesNew(TreeOf(s.nodes), op)
  {
  }

  lemma SameTreeOf(a: seq<Node>, b: seq<Node>)
    requires SameEntries(a, b)
    ensures TreeOf(a) == TreeOf(b)
  {
  }

  lemma InitTree()
    ensures TreeOf(Init().nodes) == MountedTree()
  {
  }

  lemma PutTree(nodes: seq<Node>, d: nat, name: string, child: nat)
    requires d < |nodes|
    ensures TreeOf(PutEntry(nodes, d, name, child)) == Put(TreeOf(nodes), d, name, child)
  {
  }

  lemma DropTree(nodes: seq<Node>, d: nat, name: string)
    requires d < |nodes|
    ensures TreeOf(DropEntry(nodes, d, name)) == Drop(TreeOf(nodes), d, name)
  {
  }

  lemma RegisterTree(s: NameState, kind: Kind, nlink: nat)
    requires NameInv(s) && Closed(s)
    ensures TreeOf(RegisterINode(s, kind, nlink).nodes) == WithNew(TreeOf(s.nodes), NextInode(s), kind)
  {
    NextInodeUnused(s);
  }

  // ---- every request does to the table what it does to the tree ----

  /** Making something puts a new item into the tree and one entry for it. */
  lemma AddNewTree(s: NameState, parent: nat, name: string, kind: Kind)
    requires NameInv(s) && Closed(s) && IsDirectory(s.nodes, parent) && parent != NextInode(s)
    ensures TreeOf(AddNew(s, parent, name, kind).0.nodes)
            == Put(WithNew(TreeOf(s.nodes), NextInode(s), kind), parent, name, NextInode(s))
  {
    var registered := RegisterINode(s, kind, if kind == Directory then 2 else 1).nodes;
    RegisterTree(s, kind, if kind == Directory then 2 else 1);
    PutTree(registered, parent, name, NextInode(s));
    SameTreeOf(AddNew(s, parent, name, kind).0.nodes, PutEntry(registered, parent, name, NextInode(s)));
  }

  lemma MakingServes(s: NameState, op: Op)
    requires NameInv(s) && Closed(s) && KernelSends(s, op) && Makes(s, op)
    ensures (TreeOf(Step(s, op).0.nodes), Step(s, op).1) == ServeTree(TreeOf(s.nodes), op, NextInode(s))
  {
    MakesAddNew(s, op);
    NextInodeUnused(s);
    MakesIff(s, op);
    AddNewTree(s, op.parent, op.name, NewKind(op));
  }

  lemma NotMakingServes(s: NameState, op: Op)
    requires Closed(s) && !Makes(s, op) && (op.Mknod? || op.Mkdir? || op.Create? || op.MakeSymlink?)
    ensures (TreeOf(Step(s, op).0.nodes), Step(s, op).1) == ServeTree(TreeOf(s.nodes), op, NextInode(s))
  {
  }

  /** Requests that change no entry. */
  lemma LookingServes(s: NameState, op: Op)
    requires NameInv(s) && Closed(s) && KernelSends(s, op) && (op.Lookup? || op.Forget?)
    ensures (TreeOf(Step(s, op).0.nodes), Step(s, op).1) == ServeTree(TreeOf(s.nodes), op, NextInode(s))
  {
    SameTreeOf(s.nodes, Step(s, op).0.nodes);
    if op.Lookup? && op.parent < |s.nodes| { assert NodeOk(s.nodes, op.parent); }
  }

  lemma UnlinkServes(s: NameState, d: nat, name: string)
    requires NameInv(s) && Closed(s)
    ensures (TreeOf(FuseUnlink(s, d, name).0.nodes), FuseUnlink(s, d, name).1)
            == ServeTree(TreeOf(s.nodes), Unlink(d, name), NextInode(s))
  {
    if FuseUnlink(s, d, name).1 == [Success] {
      DropTree(s.nodes, d, name);
      SameTreeOf(FuseUnlink(s, d, name).0.nodes, DropEntry(s.nodes, d, name));
    }
  }

  /** "." and ".." are nobody's entries, so whatever has entries is occupied. */
  lemma OccupiedIff(nodes: seq<Node>, d: nat)
    requires TableOk(nodes) && d < |nodes|
    ensures nodes[d].children != map[] <==> nodes[d].HasChildren()
  {
    if !nodes[d].HasChildren() { EmptyDirectory(nodes, d); }
  }

  lemma RmdirServes(s: NameState, d: nat, name: string)
    requires NameInv(s) && Closed(s)
    ensures (TreeOf(FuseRmdir(s, d, name).0.nodes), FuseRmdir(s, d, name).1)
            == ServeTree(TreeOf(s.nodes), Rmdir(d, name), NextInode(s))
  {
    if d < |s.nodes| && name in s.nodes[d].children {
      OccupiedIff(s.nodes, s.nodes[d].children[name]);
      if Removes(s, d, name) {
        RemovalEffect(s, d, name);
        DropTree(s.nodes, d, name);
        SameTreeOf(FuseRmdir(s, d, name).0.nodes, DropEntry(s.nodes, d, name));
      }
    }
  }

  lemma RenameServes(s: NameState, d: nat, name: string, e: nat, newname: string)
    requires NameInv(s) && Closed(s)
    ensures (TreeOf(FuseRename(s, d, name, e, newname).0.nodes), FuseRename(s, d, name, e, newname).1)
            == ServeTree(TreeOf(s.nodes), Rename(d, name, e, newname), NextInode(s))
  {
    if FuseRename(s, d, name, e, newname).1 == [Success] {
      RenameEffect(s, d, name, e, newname);
      PutTree(s.nodes, e, newname, s.nodes[d].children[name]);
      DropTree(PutEntry(s.nodes, e, newname, s.nodes[d].children[name]), d, name);
      SameTreeOf(FuseRename(s, d, name, e, newname).0.nodes, Renamed(s.nodes, d, name, e, newname));
    }
  }

  lemma LinkServes(s: NameState, ino: nat, e: nat, newname: string)
    requires NameInv(s) && Closed(s)
    ensures (TreeOf(FuseLink(s, ino, e, newname).0.nodes), FuseLink(s, ino, e, newname).1)
            == ServeTree(TreeOf(s.nodes), Link(ino, e, newname), NextInode(s))
  {
    if IsDirectory(s.nodes, e) && ino < |s.nodes| {
      PutTree(s.nodes, e, newname, ino);
      SameTreeOf(FuseLink(s, ino, e, newname).0.nodes, PutEntry(s.nodes, e, newname, ino));
      if newname in s.nodes[e].children { NamedHasLink(s.nodes, e, newname); }
    }
  }

  /** The inode table serves the kernel as the plain tree does, with the numbers that its
      allocator hands out: every request is answered the same and leaves the same tree. */
  lemma StepServesTree(s: NameState, op: Op)
    requires NameInv(s) && Closed(s) && KernelSends(s, op)
    ensures (TreeOf(Step(s, op).0.nodes), Step(s, op).1) == ServeTree(TreeOf(s.nodes), op, NextInode(s))
  {
    match op
    case Lookup(_, _) => LookingServes(s, op);
    case Forget(_, _) => LookingServes(s, op);
    case Unlink(d, name) => UnlinkServes(s, d, name);
    case Rmdir(d, name) => RmdirServes(s, d, name);
    case Rename(d, name, e, newname) => RenameServes(s, d, name, e, newname);
    case Link(ino, e, newname) => LinkServes(s, ino, e, newname);
    case _ => if Makes(s, op) { MakingServes(s, op); } else { NotMakingServes(s, op); }
  }
}
