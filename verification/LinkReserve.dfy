/** Links that a directory has beyond one for each subdirectory: a reserve that the kernel's own
    rules cannot use up as long as directories that change their parent are made up for. */
module LinkReserve {
  import opened NameSpace
  import opened References
  import opened NameSafety
  import opened NameRuns

  /** Links that a directory has without any subdirectory. */
  function Base(i: nat): nat { if i == 1 then 3 else 2 }

  /** Links of directory `i` beyond what its subdirectories account for. */
  ghost function Slack(nodes: seq<Node>, i: nat): int
    requires i < |nodes|
  {
    nodes[i].nlink - Base(i) - |Subdirs(nodes, i)|
  }

  /** Every linked directory has at least its own links and one for each subdirectory. */
  ghost predicate Reserved(nodes: seq<Node>) {
    forall i: nat :: i < |nodes| && nodes[i].kind == Directory && nodes[i].nlink > 0 ==> Slack(nodes, i) >= 0
  }

  lemma InitReserved()
    ensures Reserved(Init().nodes)
  {
    assert Subdirs(Init().nodes, 1) == {};
  }

  // ---- a reserve meets the rule ----

  /** A parent with a subdirectory never reaches zero links by losing one. */
  lemma ParentLosesLink(nodes: seq<Node>, d: nat, name: string)
    requires TableOk(nodes) && Reserved(nodes) && IsDirectory(nodes, d) && NamesDirectory(nodes, d, name)
    ensures nodes[d].nlink >= 3
    ensures nodes[d].RemoveHardLink().nlink == nodes[d].nlink - 1
  {
    assert name in Subdirs(nodes, d);
    SubsetSize({name}, Subdirs(nodes, d));
    assert NodeOk(nodes, d) && Slack(nodes, d) >= 0;
  }

  /** With a reserve, whatever the kernel sends meets the rule that it does not know. */
  lemma ReserveAllows(s: NameState, op: Op)
    requires NameInv(s) && Closed(s) && Reserved(s.nodes) && KernelSends(s, op)
    ensures KernelAllows(s, op)
  {
    if TakesLink(s, op) {
      ParentHasLink(s, op.parent, op.name);
      assert Slack(s.nodes, op.parent) >= 0;
      if op.Rmdir? { ParentLosesLink(s.nodes, op.parent, op.name); }
    }
  }

  // ---- what a rename does to the reserve ----

  lemma PutDropSize(t: set<string>, name: string, newname: string, put: bool)
    requires name in t <==> put
    ensures |((t - {newname}) + (if put then {newname} else {})) - {name}| == |t| - Flag(newname in t)
  {
    PutSize(t, newname, put);
    DropSize((t - {newname}) + (if put then {newname} else {}), name);
  }

  /** The subdirectories that each directory has after a rename. */
  lemma RenamedSubdirs(nodes: seq<Node>, d: nat, name: string, e: nat, newname: string, i: nat)
    requires d < |nodes| && e < |nodes| && i < |nodes| && name in nodes[d].children
    ensures var moves := d != e && IsDirectory(nodes, nodes[d].children[name]);
            |Subdirs(Renamed(nodes, d, name, e, newname), i)|
            == |Subdirs(nodes, i)| - Flag(i == e && newname in Subdirs(nodes, e))
               + Flag(i == e && moves) - Flag(i == d && moves)
  {
    var child := nodes[d].children[name];
    var t, put := Subdirs(nodes, i), IsDirectory(nodes, child);
    PutEntrySubdirs(nodes, e, newname, child, i);
    DropEntrySubdirs(PutEntry(nodes, e, newname, child), d, name, i);
    assert name in Subdirs(nodes, d) <==> put;
    if i == d && d == e {
      PutDropSize(t, name, newname, put);
    } else if i == e {
      PutSize(t, newname, put);
    } else if i == d {
      DropSize(t, name);
    }
  }

  lemma ReplacesIff(s: NameState, e: nat, newname: string)
    requires NameInv(s) && Closed(s) && e < |s.nodes|
    ensures newname in Subdirs(s.nodes, e) <==> ReplacesDirectory(s, e, newname)
  {
    assert NodeOk(s.nodes, 0);
  }

  /** A rename leaves both parents their reserve: it stays inside one directory, moves a
      directory onto a directory or anything else onto anything else, or the parent that would
      run short has a link to spare. */
  ghost predicate BooksBalance(s: NameState, parent: nat, name: string, newparent: nat, newname: string)
    requires Closed(s) && parent < |s.nodes| && newparent < |s.nodes| && name in s.nodes[parent].children
  {
    var moves := IsDirectory(s.nodes, s.nodes[parent].children[name]);
    var onto := ReplacesDirectory(s, newparent, newname);
    || parent == newparent
    || (moves <==> onto)
    || Slack(s.nodes, if moves then newparent else parent) > 0
  }

  /** Links and subdirectories of each inode after a rename. */
  lemma RenamedNode(s: NameState, parent: nat, name: string, newparent: nat, newname: string, i: nat)
    requires NameInv(s) && Closed(s) && i < |s.nodes|
    requires IsDirectory(s.nodes, parent) && IsDirectory(s.nodes, newparent)
    requires name in s.nodes[parent].children
    ensures var after := FuseRename(s, parent, name, newparent, newname).0.nodes;
            var moves := IsDirectory(s.nodes, s.nodes[parent].children[name]);
            var onto := ReplacesDirectory(s, newparent, newname);
            && |after| == |s.nodes|
            && |Refs(after, i)| == |Refs(s.nodes, i)| - Flag((newparent, newname) in Refs(s.nodes, i))
            && Slack(after, i) == Slack(s.nodes, i)
                 + (if parent == newparent then Flag(i == parent && onto)
                    else if i == newparent then 2 * Flag(onto) - Flag(moves)
                    else if i == parent then Flag(moves) - Flag(onto)
                    else 0)
  {
    var after := FuseRename(s, parent, name, newparent, newname).0.nodes;
    RenameEffect(s, parent, name, newparent, newname);
    SameEntriesRefs(after, Renamed(s.nodes, parent, name, newparent, newname), i);
    RenamedRefs(s.nodes, parent, name, newparent, newname, i);
    RenamedSubdirs(s.nodes, parent, name, newparent, newname, i);
    ReplacesIff(s, newparent, newname);
  }

  /** A rename keeps the reserve precisely when the books balance. */
  lemma RenameReserveIff(s: NameState, parent: nat, name: string, newparent: nat, newname: string)
    requires NameInv(s) && Closed(s) && Reserved(s.nodes)
    requires KernelSends(s, Rename(parent, name, newparent, newname))
    requires IsDirectory(s.nodes, parent) && IsDirectory(s.nodes, newparent) && name in s.nodes[parent].children
    ensures Reserved(FuseRename(s, parent, name, newparent, newname).0.nodes) <==>
            BooksBalance(s, parent, name, newparent, newname)
  {
    var after := FuseRename(s, parent, name, newparent, newname).0.nodes;
    ReserveAllows(s, Rename(parent, name, newparent, newname));
    RenameEffect(s, parent, name, newparent, newname);
    if BooksBalance(s, parent, name, newparent, newname) {
      forall i: nat | i < |after| && after[i].kind == Directory && after[i].nlink > 0 ensures Slack(after, i) >= 0 {
        RenamedNode(s, parent, name, newparent, newname, i);
      }
    } else {
      var i := if IsDirectory(s.nodes, s.nodes[parent].children[name]) then newparent else parent;
      RenamedNode(s, parent, name, newparent, newname, i);
      assert Slack(s.nodes, i) >= 0;
      assert Slack(after, i) < 0;
    }
  }
  // ---- what other requests do to it ----

  /** What putting an entry does to the numbers of references and subdirectories. */
  lemma PutCounts(nodes: seq<Node>, after: seq<Node>, d: nat, name: string, child: nat, i: nat)
    requires d < |nodes| && i < |nodes| && SameEntries(after, PutEntry(nodes, d, name, child))
    ensures |Refs(after, i)| == |Refs(nodes, i)| - Flag((d, name) in Refs(nodes, i)) + Flag(i == child)
    ensures |Subdirs(after, i)| == |Subdirs(nodes, i)|
              + (if i == d then Flag(IsDirectory(nodes, child)) - Flag(name in Subdirs(nodes, d)) else 0)
  {
    SameEntriesRefs(after, PutEntry(nodes, d, name, child), i);
    PutEntryRefs(nodes, d, name, child, i);
    PutEntrySubdirs(nodes, d, name, child, i);
    PutSize(Refs(nodes, i), (d, name), i == child);
    PutSize(Subdirs(nodes, d), name, IsDirectory(nodes, child));
  }

  /** A registered inode and its new entry. */
  lemma NewEntry(s: NameState, parent: nat, name: string, kind: Kind)
    requires NameInv(s) && Closed(s) && IsDirectory(s.nodes, parent) && s.nodes[parent].nlink > 0
    ensures var nlink := if kind == Directory then 2 else 1;
            var registered, after := RegisterINode(s, kind, nlink).nodes, AddNew(s, parent, name, kind).0.nodes;
            var ino := NextInode(s);
            && TableOk(registered) && IsDirectory(registered, parent) && registered[parent] == s.nodes[parent]
            && 1 < ino < |registered| && registered[ino].kind == kind && ino != parent
            && Refs(registered, ino) == {} && Subdirs(registered, ino) == {}
            && SameEntries(after, PutEntry(registered, parent, name, ino))
            && (forall i :: 0 <= i < |registered| && i != parent && i != ino ==> after[i] == registered[i])
            && after[parent].nlink == registered[parent].nlink + Flag(kind == Directory)
            && after[ino].nlink == registered[ino].nlink == nlink
  {
    var nlink := if kind == Directory then 2 else 1;
    NextInodeUnused(s);
    RegisterTableOk(s, kind, nlink);
    RegisterRefs(s, kind, nlink, NextInode(s));
  }

  lemma AddNewReserved(s: NameState, parent: nat, name: string, kind: Kind)
    requires NameInv(s) && Closed(s) && IsDirectory(s.nodes, parent) && s.nodes[parent].nlink > 0
    requires Reserved(s.nodes)
    ensures Reserved(AddNew(s, parent, name, kind).0.nodes)
  {
    var nlink := if kind == Directory then 2 else 1;
    var registered, after := RegisterINode(s, kind, nlink).nodes, AddNew(s, parent, name, kind).0.nodes;
    NewEntry(s, parent, name, kind);
    forall i: nat | i < |after| && after[i].kind == Directory && after[i].nlink > 0 ensures Slack(after, i) >= 0 {
      RegisterRefs(s, kind, nlink, i);
      PutCounts(registered, after, parent, name, NextInode(s), i);
      assert i != NextInode(s) ==> Slack(registered, i) == Slack(s.nodes, i);
    }
  }

  lemma LinkReserved(s: NameState, ino: nat, newparent: nat, newname: string)
    requires NameInv(s) && Closed(s) && Reserved(s.nodes) && KernelSends(s, Link(ino, newparent, newname))
    ensures Reserved(FuseLink(s, ino, newparent, newname).0.nodes)
  {
    var after := FuseLink(s, ino, newparent, newname).0.nodes;
    if IsDirectory(s.nodes, newparent) && ino < |s.nodes| {
      forall i: nat | i < |after| && after[i].kind == Directory && after[i].nlink > 0 ensures Slack(after, i) >= 0 {
        PutCounts(s.nodes, after, newparent, newname, ino, i);
        assert Slack(s.nodes, i) >= 0;
      }
    }
  }

  lemma UnlinkReserved(s: NameState, d: nat, name: string)
    requires NameInv(s) && Closed(s) && Reserved(s.nodes) && KernelSends(s, Unlink(d, name))
    ensures Reserved(FuseUnlink(s, d, name).0.nodes)
  {
    var after := FuseUnlink(s, d, name).0.nodes;
    if FuseUnlink(s, d, name).1 == [Success] {
      forall i: nat | i < |after| && after[i].kind == Directory && after[i].nlink > 0 ensures Slack(after, i) >= 0 {
        DroppedRefs(s.nodes, after, d, name, i);
        assert Slack(s.nodes, i) >= 0;
      }
    }
  }

  lemma RmdirReserved(s: NameState, d: nat, name: string)
    requires NameInv(s) && Closed(s) && Reserved(s.nodes)
    ensures Reserved(FuseRmdir(s, d, name).0.nodes)
  {
    var after := FuseRmdir(s, d, name).0.nodes;
    if Removes(s, d, name) {
      RemovalEffect(s, d, name);
      forall i: nat | i < |after| && after[i].kind == Directory && after[i].nlink > 0 ensures Slack(after, i) >= 0 {
        DroppedRefs(s.nodes, after, d, name, i);
        assert Slack(s.nodes, i) >= 0;
      }
    }
  }

  /** Lookup counts play no part. */
  lemma SameLinksReserved(a: seq<Node>, b: seq<Node>)
    requires |a| == |b| && forall i :: 0 <= i < |a| ==> b[i] == a[i].(nlookup := b[i].nlookup)
    requires Reserved(a)
    ensures Reserved(b)
  {
    forall i: nat | i < |b| && b[i].kind == Directory && b[i].nlink > 0 ensures Slack(b, i) >= 0 {
      SameEntriesRefs(a, b, i);
      assert Slack(a, i) >= 0;
    }
  }

  /** If the request is a rename that succeeds, its books balance. */
  ghost predicate Balanced(s: NameState, op: Op)
    requires Closed(s)
  {
    match op
    case Rename(parent, name, newparent, newname) =>
      IsDirectory(s.nodes, parent) && name in s.nodes[parent].children && IsDirectory(s.nodes, newparent) ==>
        BooksBalance(s, parent, name, newparent, newname)
    case _ => true
  }

  /** A request that the kernel sends keeps the reserve precisely when it is balanced. */
  lemma StepReserveIff(s: NameState, op: Op)
    requires NameInv(s) && Closed(s) && Reserved(s.nodes) && KernelSends(s, op)
    ensures Reserved(Step(s, op).0.nodes) <==> Balanced(s, op)
  {
    if Makes(s, op) {
      MakesAddNew(s, op);
      AddNewReserved(s, op.parent, op.name, NewKind(op));
    } else {
      match op
      case Lookup(parent, name) => SameLinksReserved(s.nodes, FuseLookup(s, parent, name).0.nodes);
      case Forget(ino, count) => SameLinksReserved(s.nodes, FuseForget(s, ino, count).0.nodes);
      case Unlink(parent, name) => UnlinkReserved(s, parent, name);
      case Rmdir(parent, name) => RmdirReserved(s, parent, name);
      case Link(ino, newparent, newname) => LinkReserved(s, ino, newparent, newname);
      case Rename(parent, name, newparent, newname) =>
        if FuseRename(s, parent, name, newparent, newname).1 == [Success] {
          RenameReserveIff(s, parent, name, newparent, newname);
        }
      case _ => assert Step(s, op).0 == s;
    }
  }

  // ---- whole runs ----

  ghost predicate AllBalanced(s: NameState, ops: seq<Op>)
    requires Closed(s) && Sent(s, ops)
    decreases |ops|
  {
    ops == [] || (Balanced(s, ops[0]) && AllBalanced(Step(s, ops[0]).0, ops[1..]))
  }

  lemma {:induction false} BalancedRunIsLegal(s: NameState, ops: seq<Op>)
    requires NameInv(s) && Closed(s) && Reserved(s.nodes) && Sent(s, ops) && AllBalanced(s, ops)
    ensures Legal(s, ops) && Reserved(Run(s, ops).nodes)
    decreases |ops|
  {
    if ops != [] {
      ReserveAllows(s, ops[0]);
      StepInv(s, ops[0]);
      StepReserveIff(s, ops[0]);
      BalancedRunIsLegal(Step(s, ops[0]).0, ops[1..]);
    }
  }

  /** Every run from mounting that a kernel sends by its own rules and whose renames are all
      balanced is legal, so all that is proved of legal runs holds of it. */
  lemma BalancedRunIsLegalFromInit(ops: seq<Op>)
    requires Sent(Init(), ops) && AllBalanced(Init(), ops)
    ensures Legal(Init(), ops) && Reserved(Run(Init(), ops).nodes)
  {
    InitInv();
    InitReserved();
    BalancedRunIsLegal(Init(), ops);
  }
}
