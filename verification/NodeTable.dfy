/** The inode objects and the table that holds them, updated in place. */
module NodeTable {
  import opened BlockStore
  import opened Blocks
  import opened FileSession
  import opened NameSpace

  /** An inode. Only directories use `children`, only regular files the file fields. */
  class INode {
    const kind: Kind
    var ino: nat
    var nlink: nat
    var nlookup: nat
    var marked: bool
    var children: map<string, nat>
    var size: nat
    var blocks: nat
    var buf: Option<seq<Byte>>
    var waiting: bool

    constructor (kind: Kind)
      ensures View() == FreshNode(0, kind, 0) && File() == EmptyFile
    {
      this.kind := kind;
      ino, nlink, nlookup, marked, children := 0, 0, 0, false, map[];
      size, blocks, buf, waiting := 0, 0, None, false;
    }

    function View(): Node
      reads this
    {
      Node(ino, kind, nlink, nlookup, marked, children)
    }

    function File(): FileData
      reads this
    {
      FileData(size, blocks, buf, waiting)
    }

    method Lookup()
      modifies this
      ensures View() == old(View()).Lookup() && File() == old(File())
    {
      nlookup := nlookup + 1;
    }

    /** The unsigned counter wraps below zero. */
    method Forget(n: nat)
      modifies this
      ensures View() == old(View()).Forget(n) && File() == old(File())
    {
      if n <= nlookup {
        nlookup := nlookup - n;
      } else {
        nlookup := (nlookup - n) % TWO_64;
      }
    }

    method AddHardLink()
      modifies this
      ensures View() == old(View()).AddHardLink() && File() == old(File())
    {
      nlink := nlink + 1;
    }

    method RemoveHardLink()
      modifies this
      ensures View() == old(View()).RemoveHardLink() && File() == old(File())
    {
      nlink := if nlink == 0 then TWO_64 - 1 else nlink - 1;
      if nlink == 0 {
        marked := true;
      }
    }

    /** The loop of rmdir. It ends at exactly zero links. */
    method RemoveAllHardLinks()
      modifies this
      ensures View() == old(View()).WithoutLinks() && File() == old(File())
      ensures nlink == 0
    {
      while nlink != 0
        invariant File() == old(File())
        invariant View() == old(View()).(nlink := nlink, marked := marked)
        invariant nlink <= old(nlink) && (marked <==> old(marked) || (nlink == 0 && old(nlink) > 0))
        decreases nlink
      {
        RemoveHardLink();
      }
    }

    method ChildINodeNumberWithName(name: string) returns (child: Option<nat>)
      ensures child == if name in children then Some(children[name]) else None
    {
      child := if name in children then Some(children[name]) else None;
    }

    method UpdateChild(name: string, child: nat)
      modifies this
      ensures View() == old(View()).UpdateChild(name, child) && File() == old(File())
    {
      children := children[name := child];
    }

    method DeleteChild(name: string)
      modifies this
      ensures View() == old(View()).DeleteChild(name) && File() == old(File())
    {
      children := children - {name};
    }

    /** Looks through all the entries for one that is neither "." nor "..". */
    method HasChildren() returns (answer: bool)
      ensures answer <==> View().HasChildren()
    {
      var rest := children.Keys;
      while rest != {}
        invariant rest <= children.Keys
        invariant forall n :: n in children && n !in rest ==> n == "." || n == ".."
        decreases |rest|
      {
        var name :| name in rest;
        if name != "." && name != ".." {
          return true;
        }
        rest := rest - {name};
      }
      answer := false;
    }
  }

  /** The table of all inodes and the queue of deleted inode numbers. */
  class Nodes {
    var inodes: seq<INode>
    var deleted: seq<nat>

    constructor ()
      ensures inodes == [] && deleted == [] && Valid()
    {
      inodes, deleted := [], [];
    }

    /** No two slots share an object. */
    ghost predicate Valid()
      reads this
    {
      forall i, j :: 0 <= i < j < |inodes| ==> inodes[i] != inodes[j]
    }

    ghost function View(): (nodes: seq<Node>)
      reads this, inodes
      ensures |nodes| == |inodes|
    {
      seq(|inodes|, i requires 0 <= i < |inodes| reads this, inodes => inodes[i].View())
    }

    ghost function Files(): (files: seq<FileData>)
      reads this, inodes
      ensures |files| == |inodes|
    {
      seq(|inodes|, i requires 0 <= i < |inodes| reads this, inodes => inodes[i].File())
    }

    /** The new inode goes to the end of the table. */
    method AddINode(inode: INode) returns (ino: nat)
      requires Valid() && inode !in inodes
      modifies this
      ensures Valid() && ino == old(|inodes|)
      ensures inodes == old(inodes) + [inode] && deleted == old(deleted)
    {
      inodes := inodes + [inode];
      ino := |inodes| - 1;
    }

    method SetINodeAt(ino: nat, inode: INode)
      requires Valid() && inode !in inodes && ino < |inodes|
      modifies this
      ensures Valid()
      ensures inodes == old(inodes)[ino := inode] && deleted == old(deleted)
    {
      inodes := inodes[ino := inode];
    }

    method DeleteINode(ino: nat)
      modifies this
      ensures deleted == old(deleted) + [ino] && inodes == old(inodes)
      ensures View() == old(View()) && Files() == old(Files())
    {
      deleted := deleted + [ino];
    }

    /** First in, first out. */
    method ReclaimINode() returns (ino: nat)
      requires deleted != []
      modifies this
      ensures ino == old(deleted)[0] && deleted == old(deleted)[1..] && inodes == old(inodes)
    {
      ino := deleted[0];
      deleted := deleted[1..];
    }

    method InitializeINode(inode: INode, ino: nat, nlink: nat)
      modifies inode
      ensures inode.View() == old(inode.View()).(ino := ino, nlink := nlink)
      ensures inode.File() == old(inode.File()).(size := 0, blocks := 0)
    {
      inode.ino, inode.nlink := ino, nlink;
      inode.size, inode.blocks := 0, 0;
    }

    /** Only the inode in slot `i` has changed. */
    twostate predicate OnlyChanged(i: nat)
      reads this, inodes
    {
      && i < |inodes| && inodes == old(inodes) && deleted == old(deleted)
      && forall k :: 0 <= k < |inodes| && k != i ==> unchanged(inodes[k])
    }

    /** What that means for the table as a value. */
    twostate lemma ViewUpdated(i: nat)
      requires OnlyChanged(i)
      ensures View() == old(View())[i := inodes[i].View()]
      ensures Files() == old(Files())[i := inodes[i].File()]
    {
      forall k | 0 <= k < |inodes| && k != i
        ensures inodes[k].View() == old(inodes[k].View()) && inodes[k].File() == old(inodes[k].File())
      {
      }
    }
  }
}
