/** The namespace handlers of one peer as the program runs them: the handlers of the inode
    table, then the path name, the message to the others, and the flag. */
module PeerFileSystem {
  import opened FileSystem
  import NS = NameSpace
  import CS = ClientServer
  import P = PeerProtocol
  import Rep = Replication
  import PathNames

  /** The channels after a handler has told the others, or not. */
  function Told(chans: P.Channels, rank: nat, worldSize: nat, sent: Rep.Sent): P.Channels {
    if sent.Nothing? then chans
    else P.EnqueueAll(chans, rank, P.SendList(rank, worldSize, sent.kind, sent.body))
  }

  /** One peer. `flagged` holds the kinds whose `FromThread` flag is up. */
  class Peer {
    const rank: nat
    const tree: FileSystem
    const network: P.Network
    var paths: seq<string>
    var flagged: set<P.Kind>
    var alive: bool

    constructor (rank: nat, tree: FileSystem, network: P.Network)
      requires tree.Valid() && tree.Names() == NS.Init()
      ensures this.rank == rank && this.tree == tree && this.network == network
      ensures Valid() && View() == Rep.Replica(NS.Init(), PathNames.MOUNTED_PATHS, {}, true)
    {
      this.rank, this.tree, this.network := rank, tree, network;
      paths, flagged, alive := PathNames.MOUNTED_PATHS, {}, true;
    }

    ghost predicate Valid()
      reads this, tree, tree.nodes, tree.nodes.inodes, tree.master, tree.master.ranks, tree.master.blocks
    {
      tree.Valid() && |paths| == |tree.nodes.inodes|
    }

    ghost function View(): (r: Rep.Replica)
      requires Valid()
      reads this, tree, tree.nodes, tree.nodes.inodes, tree.master, tree.master.ranks, tree.master.blocks
      ensures Rep.Whole(r)
    {
      Rep.Replica(tree.Names(), paths, flagged, alive)
    }

    /** The handler's last lines: unless the flag says that the request came from another
        peer, everybody is told; the flag is down afterwards. */
    method Tell(op: NS.Op, sentPaths: (string, string))
      requires Rep.Replicated(op) && (Rep.KindOf(op) !in flagged ==> Rep.InField(sentPaths))
      modifies this`flagged, network
      ensures flagged == old(flagged) - {Rep.KindOf(op)}
      ensures network.chans ==
              Told(old(network.chans), rank, network.worldSize,
                   if Rep.KindOf(op) in old(flagged) then Rep.Nothing
                   else Rep.Sent(Rep.KindOf(op), Rep.BodyOf(op, sentPaths)))
    {
      if Rep.KindOf(op) !in flagged {
        network.SendNameRequest(rank, Rep.KindOf(op), Rep.BodyOf(op, sentPaths));
      }
      flagged := flagged - {Rep.KindOf(op)};
    }

    /** A replay starts by raising the flag of its kind. */
    method RaiseFlag(kind: P.Kind)
      modifies this`flagged
      ensures flagged == old(flagged) + {kind}
    {
      flagged := flagged + {kind};
    }

    /** What a handler is allowed to assume: a process that is alive, a linked parent, and paths that fit their fields
        if they are sent. */
    ghost predicate MayHandle(op: NS.Op)
      requires Valid()
      reads this, tree, tree.nodes, tree.nodes.inodes, tree.master, tree.master.ranks, tree.master.blocks
    {
      && alive
      && Rep.Replicated(op)
      && (Rep.Tells(View(), op) ==> Rep.InField(Rep.PathsOf(View(), op)))
      && (op.Create? || op.Mkdir? ==>
            (NS.IsDirectory(tree.nodes.View(), op.parent) ==> op.parent != NS.NextInode(tree.Names())))
    }

    /** The peer's tree has served the request: the inode table, and with it sizes, buffers and
        free counters. */
    twostate predicate TreeServed(op: NS.Op)
      requires old(tree.Valid()) && (op.Forget? ==> op.ino < |old(tree.nodes.inodes)|)
      reads tree, tree.nodes, tree.nodes.inodes, tree.master, tree.master.ranks, tree.master.blocks
    {
      tree.Valid() && tree.View() == CS.StepNames(old(tree.View()), op, tree.cfg).0
    }

    /** The peer and the channels have gone where the handler of the value model takes them. */
    twostate predicate Handled(op: NS.Op)
      requires old(Valid()) && old(MayHandle(op))
      reads this, tree, tree.nodes, tree.nodes.inodes, tree.master, tree.master.ranks, tree.master.blocks, network
    {
      && Valid() && TreeServed(op)
      && View() == Rep.Handle(old(View()), op).0
      && network.chans == Told(old(network.chans), rank, network.worldSize, Rep.Handle(old(View()), op).1)
    }

    /** When the table, the paths, the flag and the channels have all gone their way. */
    twostate lemma Composed(op: NS.Op)
      requires old(Valid()) && old(MayHandle(op)) && TreeServed(op)
      requires tree.Names() == NS.Step(old(tree.Names()), op).0
      requires paths == PathNames.NextPaths(old(tree.Names()), old(paths), op)
      requires ToldAs(op) && alive
      ensures Handled(op)
    {
    }

    /** Flag and channels after a handler. */
    twostate predicate ToldAs(op: NS.Op)
      requires old(Valid()) && old(MayHandle(op))
      reads this, network
    {
      && flagged == (if old(Rep.Succeeds(tree.Names(), op)) then old(flagged) - {Rep.KindOf(op)} else old(flagged))
      && network.chans == Told(old(network.chans), rank, network.worldSize, Rep.Handle(old(View()), op).1)
    }

    /** A new inode gets a path, empty unless it is a directory. */
    method SetPath(ino: nat, path: string)
      requires ino <= |paths|
      modifies this`paths
      ensures paths == if ino < |old(paths)| then old(paths)[ino := path] else old(paths) + [path]
    {
      paths := if ino < |paths| then paths[ino := path] else paths + [path];
    }

    /** The inode table's part of create and mkdir: whether something was made, and its number. */
    method MakeEntry(op: NS.Op) returns (replies: seq<NS.Reply>, made: bool, ino: nat)
      requires tree.Valid() && (op.Create? || op.Mkdir?)
      requires NS.IsDirectory(tree.nodes.View(), op.parent) ==> op.parent != NS.NextInode(tree.Names())
      modifies tree, tree.nodes, tree.nodes.inodes, tree.master.blocks
      ensures TreeServed(op) && (tree.Names(), replies) == NS.Step(old(tree.Names()), op)
      ensures made <==> NS.Makes(old(tree.Names()), op)
      ensures made ==> ino == NS.NextInode(old(tree.Names())) && op.parent < |old(tree.nodes.inodes)|
      ensures made ==>
                && ino <= |old(tree.nodes.inodes)|
                && (NS.Reclaiming(old(tree.Names())) <==> ino < |old(tree.nodes.inodes)|)
    {
      if op.Create? {
        replies := tree.FuseCreate(op.parent, op.name);
      } else {
        replies := tree.FuseMkdir(op.parent, op.name);
      }
      made := replies[0].Entry?;
      ino := if made then replies[0].ino else 0;
    }

    method FuseCreate(parent: nat, name: string) returns (replies: seq<NS.Reply>)
      requires Valid() && MayHandle(NS.Create(parent, name))
      modifies this, tree, tree.nodes, tree.nodes.inodes, tree.master.blocks, network
      ensures Handled(NS.Create(parent, name))
      ensures replies == NS.FuseCreate(old(tree.Names()), parent, name).1
    {
      var made, ino;
      replies, made, ino := MakeEntry(NS.Create(parent, name));
      if made {
        var fileName := paths[parent] + name;
        SetPath(ino, "");
        Tell(NS.Create(parent, name), (fileName, ""));
      }
      Composed(NS.Create(parent, name));
    }

    method FuseMkdir(parent: nat, name: string) returns (replies: seq<NS.Reply>)
      requires Valid() && MayHandle(NS.Mkdir(parent, name))
      modifies this, tree, tree.nodes, tree.nodes.inodes, tree.master.blocks, network
      ensures Handled(NS.Mkdir(parent, name))
      ensures replies == NS.FuseMkdir(old(tree.Names()), parent, name).1
    {
      var made, ino;
      replies, made, ino := MakeEntry(NS.Mkdir(parent, name));
      if made {
        var dirName := paths[parent] + name + "/";
        SetPath(ino, dirName);
        Tell(NS.Mkdir(parent, name), (dirName, ""));
      }
      Composed(NS.Mkdir(parent, name));
    }

    /** The inode table's part of unlink and rename: whether the handler got to its end. */
    method ChangeEntry(op: NS.Op) returns (replies: seq<NS.Reply>, done: bool)
      requires tree.Valid() && (op.Unlink? || op.Rename?)
      modifies tree, tree.nodes.inodes
      ensures TreeServed(op) && (tree.Names(), replies) == NS.Step(old(tree.Names()), op)
      ensures done <==> old(Rep.Succeeds(tree.Names(), op))
      ensures done ==> op.parent < |old(tree.nodes.inodes)|
      ensures done && op.Rename? ==> op.newparent < |old(tree.nodes.inodes)|
    {
      if op.Unlink? {
        replies := tree.FuseUnlink(op.parent, op.name);
      } else {
        replies := tree.FuseRename(op.parent, op.name, op.newparent, op.newname);
      }
      done := replies[0] == NS.Success;
    }

    method FuseUnlink(parent: nat, name: string) returns (replies: seq<NS.Reply>)
      requires Valid() && MayHandle(NS.Unlink(parent, name))
      modifies this, tree, tree.nodes.inodes, network
      ensures Handled(NS.Unlink(parent, name))
      ensures replies == NS.FuseUnlink(old(tree.Names()), parent, name).1
    {
      var removed;
      replies, removed := ChangeEntry(NS.Unlink(parent, name));
      if removed {
        Tell(NS.Unlink(parent, name), (paths[parent] + name, ""));
      }
      Composed(NS.Unlink(parent, name));
    }

    /** The inode table's part of rmdir: whether a directory was removed, and which. */
    method RemoveEntry(parent: nat, name: string) returns (replies: seq<NS.Reply>, removed: bool, ino: nat)
      requires tree.Valid()
      modifies tree, tree.nodes.inodes
      ensures TreeServed(NS.Rmdir(parent, name))
      ensures (tree.Names(), replies) == NS.FuseRmdir(old(tree.Names()), parent, name)
      ensures removed <==> replies == [NS.Success]
      ensures removed ==>
                && parent < |old(tree.nodes.View())| && name in old(tree.nodes.View())[parent].children
                && ino == old(tree.nodes.View())[parent].children[name]
    {
      ino := 0;
      if parent < |tree.nodes.inodes| {
        var child := tree.FindChild(parent, name);
        if child.Some? { ino := child.value; }
      }
      replies := tree.FuseRmdir(parent, name);
      removed := replies[0] == NS.Success;
    }

    method FuseRmdir(parent: nat, name: string) returns (replies: seq<NS.Reply>)
      requires Valid() && MayHandle(NS.Rmdir(parent, name))
      modifies this, tree, tree.nodes.inodes, network
      ensures Handled(NS.Rmdir(parent, name))
      ensures replies == NS.FuseRmdir(old(tree.Names()), parent, name).1
    {
      var removed, ino;
      replies, removed, ino := RemoveEntry(parent, name);
      if removed {
        Tell(NS.Rmdir(parent, name), (paths[ino], ""));
      }
      Composed(NS.Rmdir(parent, name));
    }

    method FuseRename(parent: nat, name: string, newparent: nat, newname: string) returns (replies: seq<NS.Reply>)
      requires Valid() && MayHandle(NS.Rename(parent, name, newparent, newname))
      modifies this, tree, tree.nodes.inodes, network
      ensures Handled(NS.Rename(parent, name, newparent, newname))
      ensures replies == NS.FuseRename(old(tree.Names()), parent, name, newparent, newname).1
    {
      var moved;
      replies, moved := ChangeEntry(NS.Rename(parent, name, newparent, newname));
      if moved {
        Tell(NS.Rename(parent, name, newparent, newname), (paths[parent] + name, paths[newparent] + newname));
      }
      Composed(NS.Rename(parent, name, newparent, newname));
    }

    method Dispatch(op: NS.Op) returns (made: bool)
      requires Valid() && MayHandle(op)
      modifies this, tree, tree.nodes, tree.nodes.inodes, tree.master.blocks, network
      ensures Handled(op)
      ensures op.Create? ==> (made <==> old(Rep.Succeeds(tree.Names(), op)))
    {
      made := false;
      match op
      case Create(parent, name) => var replies := FuseCreate(parent, name); made := replies[0].Entry?;
      case Mkdir(parent, name) => var _ := FuseMkdir(parent, name);
      case Unlink(parent, name) => var _ := FuseUnlink(parent, name);
      case Rmdir(parent, name) => var _ := FuseRmdir(parent, name);
      case Rename(parent, name, newparent, newname) => var _ := FuseRename(parent, name, newparent, newname);
    }

    /** The flag goes up, and the kernel answers the repeated system call with `call`. A file that
        was to be made is closed, even if it could not be opened. */
    method Repeat(kind: P.Kind, call: Rep.Call)
      requires Valid() && alive && (call.Call? ==> Rep.Replicated(call.op) && Rep.KindOf(call.op) == kind)
      requires call.Call? && (call.op.Create? || call.op.Mkdir?) ==> call.op.parent != NS.NextInode(tree.Names())
      modifies this, tree, tree.nodes, tree.nodes.inodes, tree.master.blocks, network
      ensures Valid() && View() == Rep.Repeated(old(View()), kind, call).0
      ensures if call.Call? then TreeServed(call.op) else tree.View() == old(tree.View())
      ensures network.chans == old(network.chans)
    {
      RaiseFlag(kind);
      if call.Call? {
        var made := Dispatch(call.op);
        if kind == P.CREATE_FILE && !made { alive := false; }
      } else if kind == P.CREATE_FILE && call.Refused? {
        alive := false;
      }
    }

    /** A request from another peer, as it is read with `behind` in the memory behind it.
        Nothing is sent. */
    method Replay(kind: P.Kind, body: P.Body, behind: string, call: Rep.Call)
      requires Valid() && call == Rep.KernelCall(tree.nodes.View(), kind, body, behind)
      requires call.Call? && (call.op.Create? || call.op.Mkdir?) ==> call.op.parent != NS.NextInode(tree.Names())
      modifies this, tree, tree.nodes, tree.nodes.inodes, tree.master.blocks, network
      ensures Valid() && View() == Rep.Replay(old(View()), kind, body, behind).0
      ensures if old(alive) && Rep.Readable(body, behind) && call.Call? then TreeServed(call.op)
              else tree.View() == old(tree.View())
      ensures network.chans == old(network.chans)
    {
      if !alive { return; }
      if !Rep.Readable(body, behind) {
        RaiseFlag(kind);
        alive := false;
        return;
      }
      if call.Call? { Rep.CallsReplicate(tree.nodes.View(), kind, body, behind); }
      Repeat(kind, call);
    }
  }
}
