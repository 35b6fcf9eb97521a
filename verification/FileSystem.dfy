/** The handlers of the client-server file system as the program runs them: objects updated
    in place, each handler proved against what the request does to the system as a value. */
module FileSystem {
  import opened Partition
  import opened BlockStore
  import opened Blocks
  import opened Cluster
  import opened FileSession
  import opened NodeTable
  import opened Master
  import NS = NameSpace
  import NameSafety
  import CS = ClientServer
  import R = Refinement

  lemma MountedNames()
    ensures var first := NS.RegisterINode(NS.NameState([], [], false), NS.Special, 0);
            NS.RegisterINode(first, NS.Directory, 3) == NS.Init()
  {
  }

  class FileSystem {
    const cfg: Config
    const nodes: Nodes
    const master: MasterProcess
    var reclaiming: bool
    var bfree: nat
    var ffree: nat

    constructor (cfg: Config)
      ensures Valid() && this.cfg == cfg && View() == CS.Mounted(cfg)
      ensures fresh(nodes) && fresh(master) && fresh(master.ranks) && fresh(master.blocks)
      ensures forall k :: 0 <= k < |nodes.inodes| ==> fresh(nodes.inodes[k])
    {
      this.cfg := cfg;
      nodes := new Nodes();
      master := new MasterProcess(cfg);
      reclaiming, bfree, ffree := true, CS.TOTAL, CS.TOTAL;
      new;
      FuseInit();
    }

    /** Mounting registers the special inode and the root directory. */
    method FuseInit()
      requires nodes.inodes == [] && nodes.deleted == []
      modifies this, nodes
      ensures nodes.Valid() && Names() == NS.Init() && nodes.Files() == [EmptyFile, EmptyFile]
      ensures bfree == old(bfree) && ffree == (old(ffree) - 2) % NS.TWO_64
      ensures forall k :: 0 <= k < |nodes.inodes| ==> fresh(nodes.inodes[k])
    {
      reclaiming := false;
      assert Names() == NS.NameState([], [], false);
      MountedNames();
      var _ := RegisterINode(NS.Special, 0);
      var _ := RegisterINode(NS.Directory, 3);
      WrapTwice(old(ffree));
    }

    lemma WrapTwice(n: int)
      ensures ((n - 1) % NS.TWO_64 - 1) % NS.TWO_64 == (n - 2) % NS.TWO_64
    {
    }

    ghost predicate Valid()
      reads this, nodes, nodes.inodes, master, master.ranks, master.blocks
    {
      && nodes.Valid() && NS.Closed(Names())
      && master.Valid() && master.cfg == cfg && bfree < NS.TWO_64
    }

    ghost function Names(): NS.NameState
      reads this, nodes, nodes.inodes
    {
      NS.NameState(nodes.View(), nodes.deleted, reclaiming)
    }

    ghost function View(): (sys: CS.System)
      requires Valid()
      reads this, nodes, nodes.inodes, master, master.ranks, master.blocks
      ensures CS.Shaped(sys, cfg)
    {
      CS.System(Names(), nodes.Files(), master.ranks.heaps, master.blocks.lists, bfree, ffree)
    }

    // ---- the allocator ----

    /** Unsigned 64-bit counters that go down by what is used. */
    method UpdateUsedBlocks(added: int)
      modifies this`bfree
      ensures bfree == (old(bfree) - added) % NS.TWO_64
    {
      bfree := (bfree - added) % NS.TWO_64;
    }

    method UpdateUsedINodes(added: int)
      modifies this`ffree
      ensures ffree == (old(ffree) - added) % NS.TWO_64
    {
      ffree := (ffree - added) % NS.TWO_64;
    }

    /** Files and counters after something new has been made, reusing the number `ino` or not. */
    twostate predicate Charged(ino: nat, reused: bool)
      requires reused ==> ino < |old(nodes.inodes)|
      reads this, nodes, nodes.inodes
    {
      if reused then
        && nodes.Files() == old(nodes.Files())[ino := EmptyFile]
        && bfree == (old(bfree) + old(nodes.Files())[ino].blocks) % NS.TWO_64 && ffree == old(ffree)
      else
        && nodes.Files() == old(nodes.Files()) + [EmptyFile]
        && bfree == old(bfree) && ffree == (old(ffree) - 1) % NS.TWO_64
    }

    /** The table holds inodes that it held before, and new ones. */
    twostate predicate OnlyNew()
      reads nodes
    {
      forall k :: 0 <= k < |nodes.inodes| ==> nodes.inodes[k] in old(nodes.inodes) || fresh(nodes.inodes[k])
    }

    /** The table and the counters after an inode has been registered. */
    twostate predicate Registered(ino: nat, kind: NS.Kind, nlink: nat)
      requires old(NS.Closed(Names()))
      reads this, nodes, nodes.inodes
    {
      && nodes.Valid()
      && Names() == NS.RegisterINode(old(Names()), kind, nlink)
      && ino == NS.NextInode(old(Names()))
      && (forall k :: 0 <= k < |old(nodes.inodes)| && k != ino ==> nodes.inodes[k] == old(nodes.inodes)[k])
      && fresh(nodes.inodes[ino])
      && Charged(ino, NS.Reclaiming(old(Names())))
    }

    /** The table as a value when one slot holds a new object or one object has been appended. */
    twostate lemma SlotReplaced(ino: nat)
      requires ino < |old(nodes.inodes)| && |nodes.inodes| == |old(nodes.inodes)|
      requires forall k :: 0 <= k < |nodes.inodes| && k != ino ==>
                 nodes.inodes[k] == old(nodes.inodes)[k] && unchanged(nodes.inodes[k])
      ensures nodes.View() == old(nodes.View())[ino := nodes.inodes[ino].View()]
      ensures nodes.Files() == old(nodes.Files())[ino := nodes.inodes[ino].File()]
    {
      forall k | 0 <= k < |nodes.inodes| && k != ino
        ensures nodes.inodes[k].View() == old(nodes.View())[k] && nodes.inodes[k].File() == old(nodes.Files())[k]
      {
      }
    }

    twostate lemma SlotAppended()
      requires |nodes.inodes| == |old(nodes.inodes)| + 1
      requires forall k :: 0 <= k < |old(nodes.inodes)| ==>
                 nodes.inodes[k] == old(nodes.inodes)[k] && unchanged(nodes.inodes[k])
      ensures nodes.View() == old(nodes.View()) + [nodes.inodes[|old(nodes.inodes)|].View()]
      ensures nodes.Files() == old(nodes.Files()) + [nodes.inodes[|old(nodes.inodes)|].File()]
    {
      forall k | 0 <= k < |old(nodes.inodes)|
        ensures nodes.inodes[k].View() == old(nodes.View())[k] && nodes.inodes[k].File() == old(nodes.Files())[k]
      {
      }
    }

    /** A reused number: the old inode gives its blocks back and is replaced by the new one. */
    method PutOnReclaimed(inode: INode, nlink: nat) returns (ino: nat)
      requires nodes.Valid() && NS.Closed(Names()) && nodes.deleted != []
      requires inode !in nodes.inodes && inode.View() == NS.FreshNode(0, inode.kind, 0) && inode.File() == EmptyFile
      modifies this`bfree, nodes, inode
      ensures nodes.Valid() && ino == old(nodes.deleted)[0] && nodes.deleted == old(nodes.deleted)[1..]
      ensures nodes.inodes == old(nodes.inodes)[ino := inode]
      ensures nodes.View() == old(nodes.View())[ino := NS.FreshNode(ino, inode.kind, nlink)]
      ensures nodes.Files() == old(nodes.Files())[ino := EmptyFile]
      ensures bfree == (old(bfree) + old(nodes.Files())[ino].blocks) % NS.TWO_64
    {
      ino := nodes.ReclaimINode();
      var usedBlocks: int := nodes.inodes[ino].blocks;
      UpdateUsedBlocks(-usedBlocks);
      nodes.SetINodeAt(ino, inode);
      nodes.InitializeINode(inode, ino, nlink);
      SlotReplaced(ino);
    }

    /** A new number at the end of the table. */
    method PutAtEnd(inode: INode, nlink: nat) returns (ino: nat)
      requires nodes.Valid()
      requires inode !in nodes.inodes && inode.View() == NS.FreshNode(0, inode.kind, 0) && inode.File() == EmptyFile
      modifies this`ffree, nodes, inode
      ensures nodes.Valid() && ino == |old(nodes.inodes)| && nodes.deleted == old(nodes.deleted)
      ensures nodes.inodes == old(nodes.inodes) + [inode]
      ensures nodes.View() == old(nodes.View()) + [NS.FreshNode(ino, inode.kind, nlink)]
      ensures nodes.Files() == old(nodes.Files()) + [EmptyFile]
      ensures ffree == (old(ffree) - 1) % NS.TWO_64
    {
      ino := nodes.AddINode(inode);
      UpdateUsedINodes(1);
      nodes.InitializeINode(inode, ino, nlink);
      SlotAppended();
    }

    method RegisterINode(kind: NS.Kind, nlink: nat) returns (ino: nat)
      requires nodes.Valid() && NS.Closed(Names())
      modifies this, nodes
      ensures Registered(ino, kind, nlink)
    {
      if |nodes.deleted| == 0 {
        reclaiming := false;
      }
      var inode := new INode(kind);
      if reclaiming {
        ino := PutOnReclaimed(inode, nlink);
      } else {
        ino := PutAtEnd(inode, nlink);
      }
    }

    // ---- namespace handlers ----

    /** Nothing but the inodes has changed, and of them no file part. */
    twostate predicate OnlyNames()
      reads this, nodes, nodes.inodes
    {
      nodes.Valid() && nodes.Files() == old(nodes.Files()) && bfree == old(bfree) && ffree == old(ffree)
    }

    /** The whole system has gone from the state before to the one that `op` leads to. */
    twostate predicate Served(op: NS.Op, replies: seq<NS.Reply>)
      requires old(Valid()) && (op.Forget? ==> op.ino < |old(nodes.inodes)|)
      reads this, nodes, nodes.inodes, master, master.ranks, master.blocks
    {
      Valid() && (View(), replies) == CS.StepNames(old(View()), op, cfg)
    }

    /** The entry of a directory, read through the object. */
    method FindChild(parent: nat, name: string) returns (child: Option<nat>)
      requires Valid() && parent < |nodes.inodes|
      ensures child == if name in nodes.View()[parent].children then Some(nodes.View()[parent].children[name]) else None
      ensures child.Some? ==> child.value < |nodes.inodes|
    {
      child := nodes.inodes[parent].ChildINodeNumberWithName(name);
      assert nodes.View()[parent].children == nodes.inodes[parent].children;
    }

    method FuseLookup(parent: nat, name: string) returns (replies: seq<NS.Reply>)
      requires Valid()
      modifies nodes.inodes
      ensures OnlyNames() && (Names(), replies) == NS.FuseLookup(old(Names()), parent, name)
    {
      if parent >= |nodes.inodes| || nodes.inodes[parent].kind != NS.Directory {
        return [NS.Error(NS.ENOENT)];
      }
      var child := FindChild(parent, name);
      if child.None? {
        return [NS.Error(NS.ENOENT)];
      }
      nodes.inodes[child.value].Lookup();
      nodes.ViewUpdated(child.value);
      replies := [NS.Entry(child.value)];
    }

    method FuseForget(ino: nat, nlookup: nat) returns (replies: seq<NS.Reply>)
      requires Valid() && ino < |nodes.inodes|
      modifies this`reclaiming, nodes, nodes.inodes[ino]
      ensures OnlyNames() && (Names(), replies) == NS.FuseForget(old(Names()), ino, nlookup)
      ensures nodes.inodes == old(nodes.inodes)
    {
      var inode := nodes.inodes[ino];
      inode.Forget(nlookup);
      nodes.ViewUpdated(ino);
      replies := [NS.NoReply];
      if inode.nlookup == 0 && inode.nlink == 0 {
        nodes.DeleteINode(ino);
        if |nodes.deleted| > NS.RECLAMATION_THRESHOLD {
          reclaiming := true;
        }
      }
    }

    /** The entry in the parent and the first lookup of a registered inode. */
    method EnterNew(parent: nat, name: string, ino: nat, isDirectory: bool)
      requires nodes.Valid() && parent < |nodes.inodes| && ino < |nodes.inodes| && parent != ino
      modifies nodes.inodes[parent], nodes.inodes[ino]
      ensures nodes.Files() == old(nodes.Files())
      ensures var dir := old(nodes.View())[parent].UpdateChild(name, ino);
              var table := old(nodes.View())[parent := if isDirectory then dir.AddHardLink() else dir];
              nodes.View() == table[ino := table[ino].Lookup()]
    {
      nodes.inodes[parent].UpdateChild(name, ino);
      if isDirectory {
        nodes.inodes[parent].AddHardLink();
      }
      nodes.ViewUpdated(parent);
      label Entered:
      nodes.inodes[ino].Lookup();
      nodes.ViewUpdated@Entered(ino);
    }

    /** What mknod, mkdir, symlink and create do once their checks have passed. */
    method MakeNew(parent: nat, name: string, kind: NS.Kind) returns (ino: nat, replies: seq<NS.Reply>)
      requires nodes.Valid() && NS.Closed(Names())
      requires NS.IsDirectory(nodes.View(), parent) && parent != NS.NextInode(Names())
      modifies this, nodes, nodes.inodes
      ensures nodes.Valid() && (Names(), replies) == NS.AddNew(old(Names()), parent, name, kind)
      ensures ino == NS.NextInode(old(Names()))
      ensures Charged(ino, NS.Reclaiming(old(Names())))
      ensures OnlyNew()
    {
      ino := RegisterINode(kind, if kind == NS.Directory then 2 else 1);
      EnterNew(parent, name, ino, kind == NS.Directory);
      replies := [NS.Entry(ino)];
    }

    method FuseMkdir(parent: nat, name: string) returns (replies: seq<NS.Reply>)
      requires Valid() && (NS.IsDirectory(nodes.View(), parent) ==> parent != NS.NextInode(Names()))
      modifies this, nodes, nodes.inodes
      ensures Served(NS.Mkdir(parent, name), replies)
      ensures OnlyNew()
    {
      if parent >= |nodes.inodes| {
        return [NS.Error(NS.ENOENT)];
      }
      if nodes.inodes[parent].kind != NS.Directory {
        return [NS.Error(NS.EISDIR)];
      }
      var _, entry := MakeNew(parent, name, NS.Directory);
      replies := entry;
    }

    method FuseSymlink(parent: nat, name: string) returns (replies: seq<NS.Reply>)
      requires Valid() && (NS.IsDirectory(nodes.View(), parent) ==> parent != NS.NextInode(Names()))
      modifies this, nodes, nodes.inodes
      ensures Served(NS.MakeSymlink(parent, name), replies)
      ensures OnlyNew()
    {
      if parent >= |nodes.inodes| {
        return [NS.Error(NS.ENOENT)];
      }
      if nodes.inodes[parent].kind != NS.Directory {
        return [NS.Error(NS.EISDIR)];
      }
      var _, entry := MakeNew(parent, name, NS.Symlink);
      replies := entry;
    }

    method FuseMknod(parent: nat, name: string, kind: NS.Kind) returns (replies: seq<NS.Reply>)
      requires Valid() && (NS.IsDirectory(nodes.View(), parent) ==> parent != NS.NextInode(Names()))
      modifies this, nodes, nodes.inodes
      ensures Served(NS.Mknod(parent, name, kind), replies)
      ensures OnlyNew()
    {
      if parent >= |nodes.inodes| {
        return [NS.Error(NS.ENOENT)];
      }
      if nodes.inodes[parent].kind != NS.Directory {
        return [NS.Error(NS.EISDIR)];
      }
      if |name| > NS.MAX_FILENAME_LENGTH {
        return [NS.Error(NS.ENAMETOOLONG)];
      }
      if kind != NS.Directory && kind != NS.Regular {
        return [NS.Error(NS.ENOENT)];
      }
      var _, entry := MakeNew(parent, name, kind);
      replies := entry;
    }

    method FuseCreate(parent: nat, name: string) returns (replies: seq<NS.Reply>)
      requires Valid() && (NS.IsDirectory(nodes.View(), parent) ==> parent != NS.NextInode(Names()))
      modifies this, nodes, nodes.inodes, master.blocks
      ensures Served(NS.Create(parent, name), replies)
      ensures OnlyNew()
    {
      if parent >= |nodes.inodes| || nodes.inodes[parent].kind != NS.Directory {
        return [NS.Error(NS.ENOENT)];
      }
      if |name| > NS.MAX_FILENAME_LENGTH {
        return [NS.Error(NS.ENAMETOOLONG)];
      }
      replies := MakeFile(parent, name);
    }

    /** A new regular file, with an empty block list. */
    method MakeFile(parent: nat, name: string) returns (replies: seq<NS.Reply>)
      requires Valid() && NS.Makes(Names(), NS.Create(parent, name)) && parent != NS.NextInode(Names())
      modifies this, nodes, nodes.inodes, master.blocks
      ensures Served(NS.Create(parent, name), replies)
      ensures OnlyNew()
    {
      var ino;
      ino, replies := MakeNew(parent, name, NS.Regular);
      label Made:
      master.blocks.CreateEmptyBlockList(ino);
      assert Names() == old@Made(Names()) && nodes.Files() == old@Made(nodes.Files());
    }

    method FuseUnlink(parent: nat, name: string) returns (replies: seq<NS.Reply>)
      requires Valid()
      modifies nodes.inodes
      ensures OnlyNames() && (Names(), replies) == NS.FuseUnlink(old(Names()), parent, name)
    {
      if parent >= |nodes.inodes| {
        return [NS.Error(NS.ENOENT)];
      }
      if nodes.inodes[parent].kind != NS.Directory {
        return [NS.Error(NS.EISDIR)];
      }
      var child := FindChild(parent, name);
      if child.None? {
        return [NS.Error(NS.ENOENT)];
      }
      RemoveEntry(parent, name, child.value);
      replies := [NS.Success];
    }

    /** The two changes of a successful unlink. */
    method RemoveEntry(parent: nat, name: string, ino: nat)
      requires nodes.Valid() && parent < |nodes.inodes| && ino < |nodes.inodes|
      modifies nodes.inodes[parent], nodes.inodes[ino]
      ensures nodes.Files() == old(nodes.Files())
      ensures var table := old(nodes.View())[ino := old(nodes.View())[ino].RemoveHardLink()];
              nodes.View() == table[parent := table[parent].DeleteChild(name)]
    {
      nodes.inodes[ino].RemoveHardLink();
      nodes.ViewUpdated(ino);
      label Unlinked:
      nodes.inodes[parent].DeleteChild(name);
      nodes.ViewUpdated@Unlinked(parent);
    }

    /** The three changes of a successful rmdir. */
    method RemoveDirectory(parent: nat, name: string, ino: nat)
      requires nodes.Valid() && parent < |nodes.inodes| && ino < |nodes.inodes|
      modifies nodes.inodes[parent], nodes.inodes[ino]
      ensures nodes.Files() == old(nodes.Files())
      ensures var table := old(nodes.View())[parent := old(nodes.View())[parent].RemoveHardLink()];
              var bare := table[ino := table[ino].WithoutLinks()];
              nodes.View() == bare[parent := bare[parent].DeleteChild(name)]
    {
      nodes.inodes[parent].RemoveHardLink();
      nodes.ViewUpdated(parent);
      label Lost:
      nodes.inodes[ino].RemoveAllHardLinks();
      nodes.ViewUpdated@Lost(ino);
      label Bare:
      nodes.inodes[parent].DeleteChild(name);
      nodes.ViewUpdated@Bare(parent);
    }

    method FuseRmdir(parent: nat, name: string) returns (replies: seq<NS.Reply>)
      requires Valid()
      modifies nodes.inodes
      ensures OnlyNames() && (Names(), replies) == NS.FuseRmdir(old(Names()), parent, name)
    {
      if parent >= |nodes.inodes| {
        return [NS.Error(NS.ENOENT)];
      }
      if nodes.inodes[parent].kind != NS.Directory {
        return [NS.Error(NS.EISDIR)];
      }
      var child := FindChild(parent, name);
      if child.None? {
        return [NS.Error(NS.ENOENT)];
      }
      if nodes.inodes[child.value].kind != NS.Directory {
        return [NS.Error(NS.EISDIR)];
      }
      var occupied := nodes.inodes[child.value].HasChildren();
      if occupied {
        return [NS.Error(NS.EPERM)];
      }
      RemoveDirectory(parent, name, child.value);
      replies := [NS.Success];
    }

    /** The link counts of the two parents when the new name belongs to a directory. */
    method RelinkParents(parent: nat, newparent: nat, newname: string)
      requires nodes.Valid() && NS.Closed(Names()) && parent < |nodes.inodes| && newparent < |nodes.inodes|
      modifies nodes.inodes[parent], nodes.inodes[newparent]
      ensures nodes.Files() == old(nodes.Files())
      ensures nodes.View() == NS.RelinkedParents(old(Names()), parent, newparent, newname)
    {
      var existing := nodes.inodes[newparent].ChildINodeNumberWithName(newname);
      assert nodes.View()[newparent].children == nodes.inodes[newparent].children;
      if existing.Some? && existing.value > 0 {
        if nodes.inodes[existing.value].kind == NS.Directory {
          nodes.inodes[parent].RemoveHardLink();
          nodes.ViewUpdated(parent);
          label Lost:
          nodes.inodes[newparent].AddHardLink();
          nodes.ViewUpdated@Lost(newparent);
        }
      }
    }

    /** The change of entries of a successful rename. */
    method MoveEntry(parent: nat, name: string, newparent: nat, newname: string, ino: nat)
      requires nodes.Valid() && parent < |nodes.inodes| && newparent < |nodes.inodes|
      modifies nodes.inodes[parent], nodes.inodes[newparent]
      ensures nodes.Files() == old(nodes.Files())
      ensures var updated := old(nodes.View())[newparent := old(nodes.View())[newparent].UpdateChild(newname, ino)];
              nodes.View() == updated[parent := updated[parent].DeleteChild(name)]
    {
      nodes.inodes[newparent].UpdateChild(newname, ino);
      nodes.ViewUpdated(newparent);
      label Put:
      nodes.inodes[parent].DeleteChild(name);
      nodes.ViewUpdated@Put(parent);
    }

    method FuseRename(parent: nat, name: string, newparent: nat, newname: string) returns (replies: seq<NS.Reply>)
      requires Valid()
      modifies nodes.inodes
      ensures OnlyNames() && (Names(), replies) == NS.FuseRename(old(Names()), parent, name, newparent, newname)
    {
      if parent >= |nodes.inodes| {
        return [NS.Error(NS.ENOENT)];
      }
      if nodes.inodes[parent].kind != NS.Directory {
        return [NS.Error(NS.EISDIR)];
      }
      var child := FindChild(parent, name);
      if child.None? || newparent >= |nodes.inodes| {
        return [NS.Error(NS.ENOENT)];
      }
      if nodes.inodes[newparent].kind != NS.Directory {
        return [NS.Error(NS.EISDIR)];
      }
      RelinkParents(parent, newparent, newname);
      MoveEntry(parent, name, newparent, newname, child.value);
      replies := [NS.Success];
    }

    method FuseLink(ino: nat, newparent: nat, newname: string) returns (replies: seq<NS.Reply>)
      requires Valid()
      modifies nodes.inodes
      ensures OnlyNames() && (Names(), replies) == NS.FuseLink(old(Names()), ino, newparent, newname)
    {
      if newparent >= |nodes.inodes| {
        return [NS.Error(NS.ENOENT)];
      }
      if nodes.inodes[newparent].kind != NS.Directory {
        return [NS.Error(NS.EISDIR)];
      }
      if ino >= |nodes.inodes| {
        return [NS.Error(NS.ENOENT)];
      }
      replies := [];
      var existing := FindChild(newparent, newname);
      if existing.Some? && existing.value > 0 {
        replies := [NS.Error(NS.EEXIST)];
      }
      AddEntry(newparent, newname, ino);
      replies := replies + [NS.Entry(ino)];
    }

    /** The new entry, link and lookup of a successful link. */
    method AddEntry(newparent: nat, newname: string, ino: nat)
      requires nodes.Valid() && newparent < |nodes.inodes| && ino < |nodes.inodes|
      modifies nodes.inodes[newparent], nodes.inodes[ino]
      ensures nodes.Files() == old(nodes.Files())
      ensures var table := old(nodes.View())[newparent := old(nodes.View())[newparent].UpdateChild(newname, ino)];
              nodes.View() == table[ino := table[ino].AddHardLink().Lookup()]
    {
      nodes.inodes[newparent].UpdateChild(newname, ino);
      nodes.ViewUpdated(newparent);
      label Put:
      nodes.inodes[ino].AddHardLink();
      nodes.inodes[ino].Lookup();
      nodes.ViewUpdated@Put(ino);
    }

    // ---- file handlers ----

    /** The system as a value after a file handler. */
    twostate lemma FileUpdated(ino: nat)
      requires nodes.OnlyChanged(ino) && reclaiming == old(reclaiming) && ino < |old(nodes.inodes)|
      requires nodes.inodes[ino].View() == old(nodes.inodes[ino].View())
      ensures Names() == old(Names())
      ensures nodes.Files() == old(nodes.Files())[ino := nodes.inodes[ino].File()]
    {
      nodes.ViewUpdated(ino);
    }

    method FuseOpen(ino: nat, truncates: bool) returns (reply: CS.Response)
      requires Valid() && CS.Ready(View(), CS.Open(ino, truncates), cfg)
      requires ino < |nodes.inodes| && nodes.inodes[ino].kind == NS.Regular ==>
                 TransferFits(BlockCount(nodes.inodes[ino].size, cfg.B), cfg)
      modifies nodes.inodes, master.blocks
      ensures Valid() && (View(), reply) == CS.FuseOpen(old(View()), ino, truncates, cfg)
    {
      if ino >= |nodes.inodes| {
        return CS.Failed(NS.ENOENT);
      }
      var inode := nodes.inodes[ino];
      if inode.kind == NS.Directory {
        return CS.Failed(NS.EISDIR);
      }
      if inode.kind != NS.Regular {
        return CS.Failed(NS.EPERM);
      }
      if truncates {
        inode.size := 0;
        inode.blocks := 0;
      } else {
        LoadInto(inode, ino);
      }
      FileUpdated(ino);
      reply := CS.Done;
    }

    /** Fetches the contents of a file from the ranks. */
    method LoadInto(inode: INode, ino: nat)
      requires Valid() && ino < |nodes.inodes| && inode == nodes.inodes[ino]
      requires inode.size > 0 ==> CS.Stored(View(), ino, inode.size, cfg)
      requires TransferFits(BlockCount(inode.size, cfg.B), cfg)
      modifies inode, master.blocks
      ensures master.Valid() && master.blocks.lists == old(master.blocks.lists)
      ensures inode.View() == old(inode.View())
      ensures inode.File() == old(inode.File()).(buf := CS.LoadFile(old(View()), ino, cfg))
    {
      assert View().files[ino] == inode.File();
      inode.buf := master.DAGonFSRead(ino, inode.size, inode.size);
    }

    method FuseRead(ino: nat, off: nat, size: nat) returns (reply: CS.Response)
      requires Valid() && CS.Ready(View(), CS.Read(ino, off, size), cfg)
      ensures (View(), reply) == CS.FuseRead(View(), ino, off, size, cfg)
    {
      if ino >= |nodes.inodes| {
        return CS.Failed(NS.ENOENT);
      }
      var inode := nodes.inodes[ino];
      if inode.kind == NS.Directory || inode.kind == NS.Symlink {
        return CS.Failed(NS.EISDIR);
      }
      if inode.kind == NS.Special {
        return CS.Failed(NS.ENOENT);
      }
      var bytesRead := if off + size > inode.size then inode.size - off else size;
      reply := CS.Data(if inode.buf.Some? then inode.buf.value[off..off + bytesRead] else []);
    }

    /** A write that lands beyond the capacity makes the buffer larger. */
    method Grow(inode: INode, newSize: nat) returns (ghost junk: seq<Byte>)
      requires bfree < NS.TWO_64
      modifies this`bfree, inode
      ensures inode.View() == old(inode.View()) && bfree < NS.TWO_64
      ensures inode.File() == GrowFile(old(inode.File()), newSize, junk, cfg.B)
      ensures bfree == (old(bfree) - (inode.blocks - old(inode.blocks))) % NS.TWO_64
    {
      junk := [];
      if newSize > cfg.B * inode.blocks {
        var newBlocks := BlockCount(newSize, cfg.B);
        var left: seq<Byte> := *;
        junk := left;
        inode.buf := Some(Realloc(inode.buf, newBlocks * cfg.B, left));
        UpdateUsedBlocks(newBlocks - inode.blocks);
        inode.blocks := newBlocks;
      }
    }

    /** Marks the file as waiting, grows it, copies the data in, and moves the end. */
    method WriteInto(inode: INode, off: nat, data: seq<Byte>) returns (ghost junk: seq<Byte>)
      requires InBounds(inode.File(), off + |data|, cfg.B) && bfree < NS.TWO_64
      modifies this`bfree, inode
      ensures inode.View() == old(inode.View()) && bfree < NS.TWO_64
      ensures inode.File() == WriteFile(old(inode.File()), off, data, junk, cfg.B)
      ensures bfree == (old(bfree) - (inode.blocks - old(inode.blocks))) % NS.TWO_64
    {
      var newSize := off + |data|;
      junk := Grow(inode, newSize);
      inode.waiting := true;
      if inode.buf.Some? {
        inode.buf := Some(Overlay(inode.buf.value, off, data));
      }
      if newSize > inode.size {
        inode.size := newSize;
      }
    }

    method FuseWrite(ino: nat, off: nat, data: seq<Byte>) returns (reply: CS.Response, ghost junk: seq<Byte>)
      requires Valid() && CS.Ready(View(), CS.Write(ino, off, data, []), cfg)
      modifies this`bfree, nodes.inodes
      ensures CS.Ready(old(View()), CS.Write(ino, off, data, junk), cfg)
      ensures Valid() && (View(), reply) == CS.FuseWrite(old(View()), ino, off, data, junk, cfg)
    {
      junk := [];
      if ino >= |nodes.inodes| {
        return CS.Failed(NS.ENOENT), [];
      }
      var inode := nodes.inodes[ino];
      if inode.kind == NS.Directory || inode.kind == NS.Special {
        return CS.Failed(NS.EISDIR), [];
      }
      if inode.kind == NS.Symlink {
        return CS.Failed(NS.ENOENT), [];
      }
      InvInBounds(inode.File(), off + |data|, cfg.B);
      junk := WriteInto(inode, off, data);
      FileUpdated(ino);
      reply := CS.Written(|data|);
    }

    method FuseFlush(ino: nat) returns (reply: CS.Response, ghost addrs: seq<Addr>)
      requires Valid()
      requires ino < |nodes.inodes| ==>
                 && nodes.inodes[ino].kind == NS.Regular
                 && (CS.MustStore(nodes.inodes[ino].File()) ==>
                       && |nodes.inodes[ino].buf.value| == BlockCount(nodes.inodes[ino].size, cfg.B) * cfg.B
                       && TransferFits(BlockCount(nodes.inodes[ino].size, cfg.B), cfg))
      modifies nodes.inodes, master.ranks, master.blocks
      ensures CS.Ready(old(View()), CS.Flush(ino, addrs), cfg)
      ensures ino < |old(nodes.inodes)| && CS.MustStore(old(nodes.inodes[ino].File())) ==>
                FreshEverywhere(old(master.ranks.heaps), addrs, cfg)
      ensures Valid() && (View(), reply) == CS.FuseFlush(old(View()), ino, addrs, cfg)
    {
      addrs := [];
      reply := CS.Done;
      if ino >= |nodes.inodes| {
        return CS.Failed(NS.ENOENT), [];
      }
      var inode := nodes.inodes[ino];
      if inode.buf.Some? {
        if inode.waiting {
          addrs := master.DAGonFSWrite(inode.buf.value, ino, inode.size);
          inode.waiting := false;
        }
        inode.buf := None;
      }
      FileUpdated(ino);
    }

    method FuseRelease(ino: nat) returns (reply: CS.Response)
      requires Valid()
      modifies nodes.inodes
      ensures Valid() && (View(), reply) == CS.FuseRelease(old(View()), ino, cfg)
    {
      if ino >= |nodes.inodes| {
        return CS.Failed(NS.ENOENT);
      }
      var inode := nodes.inodes[ino];
      if inode.kind == NS.Directory {
        return CS.Failed(NS.EISDIR);
      }
      if inode.kind == NS.Regular {
        inode.buf := None;
        FileUpdated(ino);
      }
      reply := CS.Done;
    }

    // ---- whole requests ----

    lemma ParentNotReused(parent: nat)
      requires Valid() && NameSafety.NameInv(Names()) && NameSafety.LinkedParent(Names(), parent)
      ensures NS.IsDirectory(nodes.View(), parent) ==> parent != NS.NextInode(Names())
    {
      NameSafety.NextInodeUnused(Names());
    }

    /** A namespace request that the kernel's rules allow. */
    method HandleNames(op: NS.Op) returns (replies: seq<NS.Reply>)
      requires Valid() && NameSafety.NameInv(Names()) && NameSafety.KernelAllows(Names(), op)
      modifies this, nodes, nodes.inodes, master.blocks
      ensures Valid() && (View(), replies) == CS.StepNames(old(View()), op, cfg)
      ensures OnlyNew()
    {
      if op.Create? || op.Mkdir? || op.Mknod? || op.MakeSymlink? {
        replies := HandleMaking(op);
      } else {
        replies := HandleOthers(op);
      }
    }

    method HandleMaking(op: NS.Op) returns (replies: seq<NS.Reply>)
      requires Valid() && NameSafety.NameInv(Names()) && NameSafety.KernelAllows(Names(), op)
      requires op.Create? || op.Mkdir? || op.Mknod? || op.MakeSymlink?
      modifies this, nodes, nodes.inodes, master.blocks
      ensures Served(op, replies)
      ensures OnlyNew()
    {
      ParentNotReused(op.parent);
      if op.Mknod? {
        replies := FuseMknod(op.parent, op.name, op.kind);
      } else if op.Mkdir? {
        replies := FuseMkdir(op.parent, op.name);
      } else if op.Create? {
        replies := FuseCreate(op.parent, op.name);
      } else {
        replies := FuseSymlink(op.parent, op.name);
      }
    }

    method HandleOthers(op: NS.Op) returns (replies: seq<NS.Reply>)
      requires Valid() && (op.Forget? ==> op.ino < |nodes.inodes|)
      requires !op.Create? && !op.Mkdir? && !op.Mknod? && !op.MakeSymlink?
      modifies this`reclaiming, nodes, nodes.inodes
      ensures Valid() && (View(), replies) == CS.StepNames(old(View()), op, cfg)
      ensures nodes.inodes == old(nodes.inodes)
    {
      match op
      case Lookup(parent, name) => replies := FuseLookup(parent, name);
      case Forget(ino, count) => replies := FuseForget(ino, count);
      case Unlink(parent, name) => replies := FuseUnlink(parent, name);
      case Rmdir(parent, name) => replies := FuseRmdir(parent, name);
      case Rename(parent, name, newparent, newname) => replies := FuseRename(parent, name, newparent, newname);
      case Link(ino, newparent, newname) => replies := FuseLink(ino, newparent, newname);
    }

    /** The request has been served, and with what memory and allocator put into it: the whole
        system is the one that the request leads to. */
    twostate predicate ServedAs(req: CS.Request, reply: CS.Response, done: CS.Request)
      requires old(Valid())
      reads this, nodes, nodes.inodes, master, master.ranks, master.blocks
    {
      && Valid() && R.Alike(req, done)
      && CS.Ready(old(View()), done, cfg) && R.MallocFresh(old(View()), done, cfg)
      && (View(), reply) == CS.Serve(old(View()), done, cfg)
    }

    method ServeNames(op: NS.Op, ghost a: R.Plain) returns (reply: CS.Response)
      requires Valid() && R.Agrees(View(), a, cfg) && R.Permitted(Names(), a, CS.Names(op), cfg)
      modifies this, nodes, nodes.inodes, master.blocks
      ensures ServedAs(CS.Names(op), reply, CS.Names(op)) && OnlyNew()
    {
      var replies := HandleNames(op);
      reply := CS.Replies(replies);
    }

    lemma OpenFits(a: R.Plain, ino: nat, truncates: bool)
      requires Valid() && R.Agrees(View(), a, cfg) && R.Permitted(Names(), a, CS.Open(ino, truncates), cfg)
      requires ino < |nodes.inodes| && nodes.inodes[ino].kind == NS.Regular
      ensures TransferFits(BlockCount(nodes.inodes[ino].size, cfg.B), cfg)
    {
      R.SameFiles(View(), a, ino, cfg);
      assert R.FileAgrees(View(), a, ino, cfg);
      assert View().files[ino] == nodes.inodes[ino].File();
    }

    method ServeOpen(ino: nat, truncates: bool, ghost a: R.Plain) returns (reply: CS.Response)
      requires Valid() && R.Agrees(View(), a, cfg) && R.Permitted(Names(), a, CS.Open(ino, truncates), cfg)
      modifies nodes.inodes, master.blocks
      ensures ServedAs(CS.Open(ino, truncates), reply, CS.Open(ino, truncates))
    {
      R.AlwaysReady(View(), a, CS.Open(ino, truncates), cfg);
      if ino < |nodes.inodes| && nodes.inodes[ino].kind == NS.Regular {
        OpenFits(a, ino, truncates);
      }
      reply := FuseOpen(ino, truncates);
    }

    method ServeRead(ino: nat, off: nat, count: nat, ghost a: R.Plain) returns (reply: CS.Response)
      requires Valid() && R.Agrees(View(), a, cfg) && R.Permitted(Names(), a, CS.Read(ino, off, count), cfg)
      ensures ServedAs(CS.Read(ino, off, count), reply, CS.Read(ino, off, count))
    {
      R.AlwaysReady(View(), a, CS.Read(ino, off, count), cfg);
      reply := FuseRead(ino, off, count);
    }

    method ServeWrite(ino: nat, off: nat, data: seq<Byte>, ghost a: R.Plain)
      returns (reply: CS.Response, ghost done: CS.Request)
      requires Valid() && R.Agrees(View(), a, cfg) && R.Permitted(Names(), a, CS.Write(ino, off, data, []), cfg)
      modifies this`bfree, nodes.inodes
      ensures ServedAs(CS.Write(ino, off, data, []), reply, done)
    {
      R.AlwaysReady(View(), a, CS.Write(ino, off, data, []), cfg);
      ghost var junk;
      reply, junk := FuseWrite(ino, off, data);
      done := CS.Write(ino, off, data, junk);
    }

    lemma FlushFits(a: R.Plain, ino: nat)
      requires Valid() && R.Agrees(View(), a, cfg) && R.Permitted(Names(), a, CS.Flush(ino, []), cfg)
      requires ino < |nodes.inodes|
      ensures nodes.inodes[ino].kind == NS.Regular
      ensures CS.MustStore(nodes.inodes[ino].File()) ==>
                && |nodes.inodes[ino].buf.value| == BlockCount(nodes.inodes[ino].size, cfg.B) * cfg.B
                && TransferFits(BlockCount(nodes.inodes[ino].size, cfg.B), cfg)
    {
      R.SameFiles(View(), a, ino, cfg);
      assert R.FileAgrees(View(), a, ino, cfg);
      assert View().files[ino] == nodes.inodes[ino].File();
    }

    method ServeFlush(ino: nat, ghost a: R.Plain) returns (reply: CS.Response, ghost done: CS.Request)
      requires Valid() && R.Agrees(View(), a, cfg) && R.Permitted(Names(), a, CS.Flush(ino, []), cfg)
      modifies nodes.inodes, master.ranks, master.blocks
      ensures ServedAs(CS.Flush(ino, []), reply, done)
    {
      if ino < |nodes.inodes| {
        FlushFits(a, ino);
        assert View().files[ino] == nodes.inodes[ino].File();
      }
      ghost var addrs;
      reply, addrs := FuseFlush(ino);
      done := CS.Flush(ino, addrs);
    }

    method ServeRelease(ino: nat) returns (reply: CS.Response)
      requires Valid()
      modifies nodes.inodes
      ensures ServedAs(CS.Release(ino), reply, CS.Release(ino))
    {
      reply := FuseRelease(ino);
    }

    method Dispatch(req: CS.Request, ghost a: R.Plain) returns (reply: CS.Response, ghost done: CS.Request)
      requires Valid() && R.Agrees(View(), a, cfg) && R.Permitted(Names(), a, req, cfg)
      modifies this, nodes, nodes.inodes, master.ranks, master.blocks
      ensures ServedAs(req, reply, done) && OnlyNew()
    {
      done := req;
      match req
      case Names(op) => reply := ServeNames(op, a);
      case Open(ino, truncates) => reply := ServeOpen(ino, truncates, a);
      case Read(ino, off, count) => reply := ServeRead(ino, off, count, a);
      case Write(ino, off, data, junk) => reply, done := ServeWrite(ino, off, data, a);
      case Flush(ino, addrs) => reply, done := ServeFlush(ino, a);
      case Release(ino) => reply := ServeRelease(ino);
    }

    /** The program refines the plain tree and map: every request that the rules permit is
        answered as they answer it, the inode table is the one that the request leads to, and
        system, tree and map agree again afterwards. */
    method Serve(req: CS.Request, ghost a: R.Plain)
      returns (reply: CS.Response, ghost b: R.Plain, ghost done: CS.Request)
      requires Valid() && R.Agrees(View(), a, cfg) && R.Permitted(Names(), a, req, cfg)
      modifies this, nodes, nodes.inodes, master.ranks, master.blocks
      ensures ServedAs(req, reply, done) && R.Agrees(View(), b, cfg)
      ensures (b, reply) == R.ServePlain(a, req, NS.NextInode(old(Names())))
      ensures Names() == R.NextNames(old(Names()), req) && OnlyNew()
    {
      ghost var before := View();
      reply, done := Dispatch(req, a);
      R.AlikeServed(before.ns, a, req, done, cfg);
      R.Simulation(before, a, done, cfg);
      R.ServedNames(before, done, cfg);
      b := R.ServePlain(a, req, NS.NextInode(before.ns)).0;
    }

    /** The loop that takes one request after the other. Over every run that the rules permit
        the replies are those of the plain tree and map, one for each request. */
    method ServeAll(reqs: seq<CS.Request>, ghost a: R.Plain) returns (replies: seq<CS.Response>, ghost b: R.Plain)
      requires Valid() && R.Agrees(View(), a, cfg) && R.PermittedAll(Names(), a, reqs, cfg)
      modifies this, nodes, nodes.inodes, master.ranks, master.blocks
      ensures Valid() && R.Agrees(View(), b, cfg) && |replies| == |reqs|
      ensures replies == R.PlainResponses(old(Names()), a, reqs, cfg)
      ensures (Names(), b) == R.PlainAfter(old(Names()), a, reqs, cfg)
    {
      replies, b := [], a;
      ghost var first := Names();
      assert reqs[0..] == reqs;
      while |replies| < |reqs|
        invariant Valid() && R.Agrees(View(), b, cfg) && OnlyNew() && |replies| <= |reqs|
        invariant R.Underway(first, a, reqs, R.Progress(Names(), b, |replies|, replies), cfg)
      {
        R.NextPermitted(first, a, reqs, R.Progress(Names(), b, |replies|, replies), cfg);
        var reply;
        ghost var done;
        reply, b, done := Serve(reqs[|replies|], b);
        replies := replies + [reply];
      }
      R.RunEnded(first, a, reqs, R.Progress(Names(), b, |replies|, replies), cfg);
    }
  }

  /** From mounting: whatever run of requests the rules permit, the program answers each of
      them as the plain tree and map do. */
  method MountAndServe(reqs: seq<CS.Request>, cfg: Config) returns (replies: seq<CS.Response>)
    requires R.PermittedAll(NS.Init(), R.PlainMounted(), reqs, cfg)
    ensures replies == R.PlainResponses(NS.Init(), R.PlainMounted(), reqs, cfg) && |replies| == |reqs|
  {
    var fs := new FileSystem(cfg);
    R.MountedAgrees(cfg);
    ghost var b;
    replies, b := fs.ServeAll(reqs, R.PlainMounted());
  }
}
