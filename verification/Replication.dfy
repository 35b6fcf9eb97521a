/** Namespace requests on all peers: a handler tells the others by path name, and each of them
    repeats the request through its own kernel without telling anybody again. */
module Replication {
  import opened NameSpace
  import opened References
  import opened NameSafety
  import opened PathNames
  import opened Wire
  import P = PeerProtocol

  // ---- one peer ----

  /** `flagged` holds the kinds of request whose `FromThread` flag is up; a peer that has used a
      null pointer is not alive any more. */
  datatype Replica = Replica(names: NameState, paths: seq<string>, flagged: set<P.Kind>, alive: bool)

  ghost predicate Whole(r: Replica) { Closed(r.names) && |r.paths| == |r.names.nodes| }

  predicate Replicated(op: Op) { op.Create? || op.Unlink? || op.Mkdir? || op.Rmdir? || op.Rename? }

  function KindOf(op: Op): P.Kind
    requires Replicated(op)
  {
    match op
    case Create(_, _) => P.CREATE_FILE
    case Unlink(_, _) => P.DELETE_FILE
    case Mkdir(_, _) => P.CREATE_DIR
    case Rmdir(_, _) => P.DELETE_DIR
    case Rename(_, _, _, _) => P.RENAME
  }

  /** The handler gets to its end. */
  predicate Succeeds(s: NameState, op: Op)
    requires Closed(s) && Replicated(op)
  {
    Makes(s, op) || Step(s, op).1 == [Success]
  }

  /** The one or two paths that the handler would send. */
  function PathsOf(r: Replica, op: Op): (string, string)
    requires Whole(r) && Replicated(op) && Succeeds(r.names, op)
  {
    match op
    case Create(parent, name) => (r.paths[parent] + name, "")
    case Unlink(parent, name) => (r.paths[parent] + name, "")
    case Mkdir(parent, name) => (r.paths[parent] + name + "/", "")
    case Rmdir(parent, name) => (r.paths[r.names.nodes[parent].children[name]], "")
    case Rename(parent, name, newparent, newname) => (r.paths[parent] + name, r.paths[newparent] + newname)
  }

  predicate InField(paths: (string, string)) { |paths.0| <= PATH_FIELD && |paths.1| <= PATH_FIELD }

  function BodyOf(op: Op, paths: (string, string)): P.Body
    requires InField(paths)
  {
    if op.Rename? then P.TwoPaths(Encode(paths.0), Encode(paths.1)) else P.Path(Encode(paths.0))
  }

  datatype Sent = Nothing | Sent(kind: P.Kind, body: P.Body)

  /** Whether the handler tells the other peers. */
  predicate Tells(r: Replica, op: Op)
    requires Whole(r) && Replicated(op)
  {
    r.alive && Succeeds(r.names, op) && KindOf(op) !in r.flagged
  }

  /** A handler of the peer-to-peer version. Only at its end does it look at its flag, and
      leave it down. */
  function Handle(r: Replica, op: Op): (out: (Replica, Sent))
    requires Whole(r) && (op.Forget? ==> op.ino < |r.names.nodes|)
    requires Replicated(op) && Tells(r, op) ==> InField(PathsOf(r, op))
    ensures Whole(out.0)
  {
    var names, paths := Step(r.names, op).0, NextPaths(r.names, r.paths, op);
    if !r.alive then (r, Nothing)
    else if Replicated(op) && Succeeds(r.names, op) then
      (Replica(names, paths, r.flagged - {KindOf(op)}, true),
       if Tells(r, op) then Sent(KindOf(op), BodyOf(op, PathsOf(r, op))) else Nothing)
    else (Replica(names, paths, r.flagged, true), Nothing)
  }

  datatype Place = Nowhere | Place(parent: nat, name: string)

  /** The directory and the last name that a path leads to. */
  function Resolve(nodes: seq<Node>, path: Text): Place {
    if !path.Text? || Components(path.chars) == [] then Nowhere
    else
      var components := Components(path.chars);
      match Walk(nodes, components[..|components| - 1])
      case Missing => Nowhere
      case Found(d) => if IsDirectory(nodes, d) then Place(d, components[|components| - 1]) else Nowhere
  }

  /** What comes of a system call on a path: an error, the opening of a file that is there
      already, or a call of the handler that the request was made by. */
  datatype Call = Refused | Opens | Call(op: Op)

  /** The texts that a receiver reads of a message, with `behind` in the memory behind it. The
      first of two fields is followed by the second. */
  function FirstText(body: P.Body, behind: string): Text {
    match body
    case IORequest(_, _, _) => Text("")
    case TwoPaths(from, to) => CString(from + (to + behind))
    case Path(path) => CString(path + behind)
  }

  function SecondText(body: P.Body, behind: string): Text {
    match body
    case TwoPaths(from, to) => CString(to + behind)
    case _ => Text("")
  }

  /** A file's name must not be followed by a slash. */
  predicate Slashed(text: Text) { text.Text? && EndsInSlash(text.chars) }

  /** How the kernel answers a system call of some kind on a path. */
  function CallOn(nodes: seq<Node>, kind: P.Kind, text: Text): Call {
    match Resolve(nodes, text)
    case Nowhere => Refused
    case Place(d, name) =>
      if !IsDirectory(nodes, d) then Refused
      else if kind == P.CREATE_FILE && !Slashed(text) then
        if name !in nodes[d].children then Call(Create(d, name))
        else if NamesDirectory(nodes, d, name) then Refused else Opens
      else if kind == P.CREATE_DIR && name !in nodes[d].children then Call(Mkdir(d, name))
      else if kind == P.DELETE_FILE && !Slashed(text) && NamesFile(nodes, d, name) then Call(Unlink(d, name))
      else if kind == P.DELETE_DIR && NamesDirectory(nodes, d, name) then Call(Rmdir(d, name))
      else Refused
  }

  /** And a rename: of like to like, and never of an inode to itself. */
  function RenameOn(nodes: seq<Node>, from: Text, to: Text): Call {
    match (Resolve(nodes, from), Resolve(nodes, to))
    case (Place(d, name), Place(e, newname)) =>
      if !IsDirectory(nodes, d) || !IsDirectory(nodes, e) || name !in nodes[d].children then Refused
      else if !NamesDirectory(nodes, d, name) && (Slashed(from) || Slashed(to)) then Refused
      else if newname in nodes[e].children
           && (nodes[e].children[newname] == nodes[d].children[name]
               || (NamesDirectory(nodes, d, name) != NamesDirectory(nodes, e, newname))) then Refused
      else Call(Rename(d, name, e, newname))
    case _ => Refused
  }

  /** The handler that the kernel calls for a system call on the paths of a message, after
      its own checks. */
  function KernelCall(nodes: seq<Node>, kind: P.Kind, body: P.Body, behind: string): Call {
    match body
    case IORequest(_, _, _) => Refused
    case TwoPaths(_, _) =>
      if kind == P.RENAME then RenameOn(nodes, FirstText(body, behind), SecondText(body, behind)) else Refused
    case Path(_) => CallOn(nodes, kind, FirstText(body, behind))
  }

  lemma CallsReplicate(nodes: seq<Node>, kind: P.Kind, body: P.Body, behind: string)
    requires KernelCall(nodes, kind, body, behind).Call?
    ensures Replicated(KernelCall(nodes, kind, body, behind).op)
    ensures KindOf(KernelCall(nodes, kind, body, behind).op) == kind
  {
  }

  /** A receiver that finds no terminator reads on until it must not. */
  predicate Readable(body: P.Body, behind: string) {
    FirstText(body, behind).Text? && SecondText(body, behind).Text?
  }

  /** What the kernel's answer to a repeated system call does. The file that a creation should
      open is closed without looking whether there is one. */
  function Repeated(r: Replica, kind: P.Kind, call: Call): (out: (Replica, Sent))
    requires Whole(r) && r.alive && (call.Call? ==> Replicated(call.op) && KindOf(call.op) == kind)
    ensures Whole(out.0)
  {
    var ready := r.(flagged := r.flagged + {kind});
    match call
    case Refused => (ready.(alive := kind != P.CREATE_FILE), Nothing)
    case Opens => (ready, Nothing)
    case Call(op) =>
      var (after, sent) := Handle(ready, op);
      (if op.Create? && !Succeeds(r.names, op) then after.(alive := false) else after, sent)
  }

  /** What a peer does with a request from another: it raises the flag and repeats the
      system call. */
  function Replay(r: Replica, kind: P.Kind, body: P.Body, behind: string): (out: (Replica, Sent))
    requires Whole(r)
    ensures Whole(out.0)
  {
    var call := KernelCall(r.names.nodes, kind, body, behind);
    if !r.alive then (r, Nothing)
    else if !Readable(body, behind) then (r.(flagged := r.flagged + {kind}, alive := false), Nothing)
    else
      assert call.Call? ==> Replicated(call.op) && KindOf(call.op) == kind by {
        if call.Call? { CallsReplicate(r.names.nodes, kind, body, behind); }
      }
      Repeated(r, kind, call)
  }

  /** The replay of a creation whose file is there already only opens it: the peer stays alive
      and its tree as it was, nothing is sent, and the flag stays up, as no handler ran. */
  lemma ExistingFileOpens(r: Replica, path: string, behind: string, d: nat, name: string)
    requires Whole(r) && r.alive && CString(path + behind).Text? && !Slashed(CString(path + behind))
    requires Resolve(r.names.nodes, CString(path + behind)) == Place(d, name)
    requires name in r.names.nodes[d].children && !NamesDirectory(r.names.nodes, d, name)
    ensures Replay(r, P.CREATE_FILE, P.Path(path), behind)
            == (r.(flagged := r.flagged + {P.CREATE_FILE}), Nothing)
  {
    assert KernelCall(r.names.nodes, P.CREATE_FILE, P.Path(path), behind) == Opens;
  }

  /** No echo: a replayed request is never sent on; its flag is down again precisely when the
      kernel called the handler and the handler succeeded; and the peer lives on precisely when
      its message could be read and, if a file was to be made, one was opened. */
  lemma NoEcho(r: Replica, kind: P.Kind, body: P.Body, behind: string)
    requires Whole(r) && r.alive
    ensures Replay(r, kind, body, behind).1 == Nothing
    ensures var call := KernelCall(r.names.nodes, kind, body, behind);
            var after := Replay(r, kind, body, behind).0;
            var served := call.Call? && Replicated(call.op) && Succeeds(r.names, call.op);
            && (kind !in after.flagged <==> Readable(body, behind) && served)
            && (after.alive <==> Readable(body, behind) && (kind == P.CREATE_FILE ==> call.Opens? || served))
  {
    if KernelCall(r.names.nodes, kind, body, behind).Call? { CallsReplicate(r.names.nodes, kind, body, behind); }
  }

  // ---- peers with the same tree ----

  /** Equal but for the lookup count. */
  predicate SameNode(x: Node, y: Node) { y == x.(nlookup := y.nlookup) }

  ghost predicate SameNodes(a: seq<Node>, b: seq<Node>) {
    |a| == |b| && forall i :: 0 <= i < |a| ==> SameNode(a[i], b[i])
  }

  /** The same inodes, links, entries and stored paths; lookups and queues are each peer's own. */
  ghost predicate SameTree(a: Replica, b: Replica) {
    a.paths == b.paths && SameNodes(a.names.nodes, b.names.nodes)
  }

  lemma SameTreeTransitive(a: Replica, b: Replica, c: Replica)
    requires SameTree(a, b) && SameTree(b, c)
    ensures SameTree(a, c) && SameTree(b, a)
  {
  }

  /** On equal trees a path leads everywhere to the same inode number. */
  lemma {:induction false} SameWalk(a: Replica, b: Replica, components: seq<string>)
    requires SameTree(a, b)
    ensures Walk(a.names.nodes, components) == Walk(b.names.nodes, components)
    decreases |components|
  {
    if components != [] { SameWalk(a, b, components[..|components| - 1]); }
  }

  /** While a peer is not reclaiming, its next number is the length of the table. */
  lemma NotReclaimingSameNumber(a: Replica, b: Replica)
    requires SameTree(a, b) && !Reclaiming(a.names) && !Reclaiming(b.names)
    ensures NextInode(a.names) == NextInode(b.names)
  {
  }

  /** The same change of one inode in both tables. */
  lemma SameChange(a: seq<Node>, b: seq<Node>, i: nat, x: Node, y: Node)
    requires SameNodes(a, b) && i < |a| && SameNode(x, y)
    ensures SameNodes(a[i := x], b[i := y])
  {
  }

  lemma SameUnlink(a: NameState, b: NameState, parent: nat, name: string)
    requires Closed(a) && Closed(b) && SameNodes(a.nodes, b.nodes)
    ensures FuseUnlink(a, parent, name).1 == FuseUnlink(b, parent, name).1
    ensures SameNodes(FuseUnlink(a, parent, name).0.nodes, FuseUnlink(b, parent, name).0.nodes)
  {
    if FuseUnlink(a, parent, name).1 == [Success] {
      var ino := a.nodes[parent].children[name];
      var x, y := a.nodes[ino := a.nodes[ino].RemoveHardLink()], b.nodes[ino := b.nodes[ino].RemoveHardLink()];
      SameChange(a.nodes, b.nodes, ino, x[ino], y[ino]);
      SameChange(x, y, parent, x[parent].DeleteChild(name), y[parent].DeleteChild(name));
    }
  }

  lemma SameRmdir(a: NameState, b: NameState, parent: nat, name: string)
    requires Closed(a) && Closed(b) && SameNodes(a.nodes, b.nodes)
    ensures FuseRmdir(a, parent, name).1 == FuseRmdir(b, parent, name).1
    ensures SameNodes(FuseRmdir(a, parent, name).0.nodes, FuseRmdir(b, parent, name).0.nodes)
  {
    if FuseRmdir(a, parent, name).1 == [Success] {
      var ino := a.nodes[parent].children[name];
      var x := a.nodes[parent := a.nodes[parent].RemoveHardLink()];
      var y := b.nodes[parent := b.nodes[parent].RemoveHardLink()];
      SameChange(a.nodes, b.nodes, parent, x[parent], y[parent]);
      var v, w := x[ino := x[ino].WithoutLinks()], y[ino := y[ino].WithoutLinks()];
      SameChange(x, y, ino, v[ino], w[ino]);
      SameChange(v, w, parent, v[parent].DeleteChild(name), w[parent].DeleteChild(name));
    }
  }

  lemma SameRelink(a: NameState, b: NameState, parent: nat, newparent: nat, newname: string)
    requires Closed(a) && Closed(b) && SameNodes(a.nodes, b.nodes)
    requires parent < |a.nodes| && newparent < |a.nodes|
    ensures SameNodes(RelinkedParents(a, parent, newparent, newname), RelinkedParents(b, parent, newparent, newname))
  {
    if ReplacesDirectory(a, newparent, newname) {
      var x := a.nodes[parent := a.nodes[parent].RemoveHardLink()];
      var y := b.nodes[parent := b.nodes[parent].RemoveHardLink()];
      SameChange(a.nodes, b.nodes, parent, x[parent], y[parent]);
      SameChange(x, y, newparent, x[newparent].AddHardLink(), y[newparent].AddHardLink());
    }
  }

  lemma SameRename(a: NameState, b: NameState, parent: nat, name: string, newparent: nat, newname: string)
    requires Closed(a) && Closed(b) && SameNodes(a.nodes, b.nodes)
    ensures FuseRename(a, parent, name, newparent, newname).1 == FuseRename(b, parent, name, newparent, newname).1
    ensures SameNodes(FuseRename(a, parent, name, newparent, newname).0.nodes,
                      FuseRename(b, parent, name, newparent, newname).0.nodes)
  {
    if FuseRename(a, parent, name, newparent, newname).1 == [Success] {
      var ino := a.nodes[parent].children[name];
      SameRelink(a, b, parent, newparent, newname);
      var x, y := RelinkedParents(a, parent, newparent, newname), RelinkedParents(b, parent, newparent, newname);
      var v := x[newparent := x[newparent].UpdateChild(newname, ino)];
      var w := y[newparent := y[newparent].UpdateChild(newname, ino)];
      SameChange(x, y, newparent, v[newparent], w[newparent]);
      SameChange(v, w, parent, v[parent].DeleteChild(name), w[parent].DeleteChild(name));
    }
  }

  lemma SameRegister(a: NameState, b: NameState, kind: Kind, nlink: nat)
    requires Closed(a) && Closed(b) && SameNodes(a.nodes, b.nodes) && NextInode(a) == NextInode(b)
    ensures SameNodes(RegisterINode(a, kind, nlink).nodes, RegisterINode(b, kind, nlink).nodes)
  {
  }

  lemma SameAddNew(a: NameState, b: NameState, parent: nat, name: string, kind: Kind)
    requires Closed(a) && Closed(b) && SameNodes(a.nodes, b.nodes) && NextInode(a) == NextInode(b)
    requires IsDirectory(a.nodes, parent)
    ensures SameNodes(AddNew(a, parent, name, kind).0.nodes, AddNew(b, parent, name, kind).0.nodes)
  {
    var nlink := if kind == Directory then 2 else 1;
    var x, y := RegisterINode(a, kind, nlink).nodes, RegisterINode(b, kind, nlink).nodes;
    var ino := NextInode(a);
    SameRegister(a, b, kind, nlink);
    var dx, dy := x[parent].UpdateChild(name, ino), y[parent].UpdateChild(name, ino);
    var v := x[parent := if kind == Directory then dx.AddHardLink() else dx];
    var w := y[parent := if kind == Directory then dy.AddHardLink() else dy];
    SameChange(x, y, parent, v[parent], w[parent]);
    SameChange(v, w, ino, v[ino].Lookup(), w[ino].Lookup());
  }

  lemma AddNewEntry(s: NameState, parent: nat, name: string, kind: Kind)
    requires Closed(s) && IsDirectory(s.nodes, parent) && parent != NextInode(s)
    ensures var nodes := AddNew(s, parent, name, kind).0.nodes;
            parent < |nodes| && name in nodes[parent].children && nodes[parent].children[name] == NextInode(s)
  {
  }

  /** A living peer after a request, with all flags down. */
  function StepOf(r: Replica, op: Op): (after: Replica)
    requires Whole(r) && (op.Forget? ==> op.ino < |r.names.nodes|)
    ensures Whole(after)
  {
    Replica(Step(r.names, op).0, NextPaths(r.names, r.paths, op), {}, true)
  }

  /** Something new keeps two equal trees equal precisely when both allocators hand out the
      same number. */
  lemma NewTreeIff(a: Replica, b: Replica, op: Op)
    requires Whole(a) && Whole(b) && SameTree(a, b) && (op.Create? || op.Mkdir?) && Makes(a.names, op)
    requires op.parent != NextInode(a.names) && op.parent != NextInode(b.names)
    ensures Makes(b.names, op)
    ensures SameTree(StepOf(a, op), StepOf(b, op)) <==> NextInode(a.names) == NextInode(b.names)
  {
    var kind := if op.Mkdir? then Directory else Regular;
    AddNewEntry(a.names, op.parent, op.name, kind);
    AddNewEntry(b.names, op.parent, op.name, kind);
    if NextInode(a.names) == NextInode(b.names) {
      SameAddNew(a.names, b.names, op.parent, op.name, kind);
    } else {
      assert StepOf(a, op).names.nodes[op.parent].children != StepOf(b, op).names.nodes[op.parent].children;
    }
  }

  /** Anything else keeps equal trees equal. */
  lemma OldTree(a: Replica, b: Replica, op: Op)
    requires Whole(a) && Whole(b) && SameTree(a, b) && (op.Unlink? || op.Rmdir? || op.Rename?)
    ensures Succeeds(a.names, op) <==> Succeeds(b.names, op)
    ensures SameTree(StepOf(a, op), StepOf(b, op))
  {
    match op
    case Unlink(parent, name) => SameUnlink(a.names, b.names, parent, name);
    case Rmdir(parent, name) => SameRmdir(a.names, b.names, parent, name);
    case Rename(parent, name, newparent, newname) => SameRename(a.names, b.names, parent, name, newparent, newname);
  }

  // ---- the path of a request leads back to the request ----

  /** Every path of a request is read so that it leads to where it should. The first of two
      paths is followed by the second, so it must leave room for its terminator. */
  predicate Arrives(op: Op, paths: (string, string), behind: string) {
    if op.Rename? then |paths.0| < PATH_FIELD && Intact(paths.1, behind, false)
    else Intact(paths.0, behind, op.Mkdir? || op.Rmdir?)
  }

  /** What must hold of a successful request so that it can be repeated by path: new names are
      fresh single components, and only files are renamed and unlinked. */
  ghost predicate Issuable(r: Replica, op: Op)
    requires Whole(r) && Replicated(op) && Succeeds(r.names, op)
  {
    var (path, newpath) := PathsOf(r, op);
    && NamesFiles(op)
    && '\0' !in path && '\0' !in newpath
    && match op
       case Create(parent, name) => name !in r.names.nodes[parent].children
       case Mkdir(parent, name) => name !in r.names.nodes[parent].children
       case Unlink(parent, name) => !NamesDirectory(r.names.nodes, parent, name)
       case Rmdir(parent, name) => true
       case Rename(parent, name, newparent, newname) =>
         && !NamesDirectory(r.names.nodes, parent, name) && !NamesDirectory(r.names.nodes, newparent, newname)
         && (newname in r.names.nodes[newparent].children ==>
               r.names.nodes[newparent].children[newname] != r.names.nodes[parent].children[name])
  }

  ghost predicate Sane(r: Replica) {
    NameInv(r.names) && PathInv(r.names.nodes, r.paths) && r.alive
  }

  lemma ResolvesByComponents(nodes: seq<Node>, text: string, front: seq<string>, name: string, d: nat)
    requires Components(text) == front + [name] && Walk(nodes, front) == Found(d) && IsDirectory(nodes, d)
    ensures Resolve(nodes, Text(text)) == Place(d, name)
  {
    assert Components(text)[..|front|] == front;
  }

  lemma ResolvesTo(r: Replica, d: nat, name: string, path: string, slashes: string)
    requires Sane(r) && IsDirectory(r.names.nodes, d) && r.names.nodes[d].nlink > 0 && FileName(name)
    requires path == r.paths[d] + name || path == r.paths[d] + name + "/"
    requires AllSlashes(slashes)
    ensures Resolve(r.names.nodes, Text(path + slashes)) == Place(d, name)
  {
    PathReaches(r.names.nodes, r.paths, d);
    ComponentsOfChild(r.paths[d], name);
    ComponentsThenSlashes(path, slashes);
    ResolvesByComponents(r.names.nodes, path + slashes, Components(r.paths[d]), name, d);
  }

  lemma NotSlashed(dir: string, name: string)
    requires FileName(name)
    ensures !Slashed(Text(dir + name))
  {
    assert (dir + name)[|dir + name| - 1] == name[|name| - 1];
  }

  /** A directory that has an entry has links, and the entry's name is a single component. */
  lemma EntryFacts(r: Replica, d: nat, name: string)
    requires Sane(r) && d < |r.names.nodes| && name in r.names.nodes[d].children
    ensures IsDirectory(r.names.nodes, d) && r.names.nodes[d].nlink > 0 && FileName(name)
    ensures NamesDirectory(r.names.nodes, d, name) ==>
              r.paths[r.names.nodes[d].children[name]] == r.paths[d] + name + "/"
  {
    assert NodeOk(r.names.nodes, d);
    assert EntryLaw(r.names.nodes, r.paths, d, name);
  }

  /** The request succeeds, its paths fit their fields, and other peers can repeat it by path. */
  ghost predicate Repeatable(r: Replica, op: Op)
    requires Whole(r)
  {
    && Replicated(op) && Succeeds(r.names, op) && Issuable(r, op) && InField(PathsOf(r, op))
    && KernelAllows(r.names, op)
  }

  /** The paths that a successful request sends, if they arrive, make a peer with the same tree
      call the handler with the very same request. */
  lemma CallMatches(r: Replica, op: Op, behind: string)
    requires Sane(r) && Whole(r) && Repeatable(r, op) && Arrives(op, PathsOf(r, op), behind)
    ensures Readable(BodyOf(op, PathsOf(r, op)), behind)
    ensures KernelCall(r.names.nodes, KindOf(op), BodyOf(op, PathsOf(r, op)), behind) == Call(op)
  {
    if op.Rename? {
      TwoPathsMatch(r, op, behind);
    } else {
      OnePathMatches(r, op, behind);
    }
  }

  lemma TwoPathsMatch(r: Replica, op: Op, behind: string)
    requires Sane(r) && Whole(r) && Repeatable(r, op) && Arrives(op, PathsOf(r, op), behind) && op.Rename?
    ensures Readable(BodyOf(op, PathsOf(r, op)), behind)
    ensures KernelCall(r.names.nodes, P.RENAME, BodyOf(op, PathsOf(r, op)), behind) == Call(op)
  {
    var (from, to) := PathsOf(r, op);
    EntryFacts(r, op.parent, op.name);
    ReceivedAs(from, Encode(to) + behind);
    var rest := IntactText(to, behind, false);
    ResolvesTo(r, op.parent, op.name, from, "");
    ResolvesTo(r, op.newparent, op.newname, to, "");
    NotSlashed(r.paths[op.parent], op.name);
    NotSlashed(r.paths[op.newparent], op.newname);
    assert from + "" == from && to + "" == to;
  }

  /** What a message with one path makes a receiver do depends on the one text that it reads. */
  lemma OneText(nodes: seq<Node>, op: Op, paths: (string, string), behind: string)
    requires Replicated(op) && !op.Rename? && InField(paths)
    ensures Readable(BodyOf(op, paths), behind) <==> Received(paths.0, behind).Text?
    ensures KernelCall(nodes, KindOf(op), BodyOf(op, paths), behind)
            == CallOn(nodes, KindOf(op), Received(paths.0, behind))
  {
  }

  /** A path and harmless slashes lead the kernel to the request that they stand for. */
  lemma TextMatches(r: Replica, op: Op, path: string, rest: string)
    requires Sane(r) && Whole(r) && Repeatable(r, op) && !op.Rename? && path == PathsOf(r, op).0
    requires AllSlashes(rest) && (rest == "" || op.Mkdir? || op.Rmdir?)
    ensures CallOn(r.names.nodes, KindOf(op), Text(path + rest)) == Call(op)
  {
    OnePath(r, op);
    ResolvesTo(r, op.parent, op.name, path, rest);
    if !op.Mkdir? && !op.Rmdir? {
      NotSlashed(r.paths[op.parent], op.name);
      assert path + rest == r.paths[op.parent] + op.name;
    }
    CalledAt(r, op, Text(path + rest));
  }

  lemma CalledAt(r: Replica, op: Op, text: Text)
    requires Whole(r) && Replicated(op) && !op.Rename? && Succeeds(r.names, op) && Issuable(r, op)
    requires Resolve(r.names.nodes, text) == Place(op.parent, op.name) && (Slashed(text) ==> op.Mkdir? || op.Rmdir?)
    ensures CallOn(r.names.nodes, KindOf(op), text) == Call(op)
  {
  }

  lemma OnePathMatches(r: Replica, op: Op, behind: string)
    requires Sane(r) && Whole(r) && Repeatable(r, op) && Arrives(op, PathsOf(r, op), behind) && !op.Rename?
    ensures Readable(BodyOf(op, PathsOf(r, op)), behind)
    ensures KernelCall(r.names.nodes, KindOf(op), BodyOf(op, PathsOf(r, op)), behind) == Call(op)
  {
    var path := PathsOf(r, op).0;
    var rest := IntactText(path, behind, op.Mkdir? || op.Rmdir?);
    TextMatches(r, op, path, rest);
    OneText(r.names.nodes, op, PathsOf(r, op), behind);
  }

  lemma OnePath(r: Replica, op: Op)
    requires Sane(r) && Whole(r) && Repeatable(r, op) && !op.Rename?
    ensures IsDirectory(r.names.nodes, op.parent) && r.names.nodes[op.parent].nlink > 0 && FileName(op.name)
    ensures var path := PathsOf(r, op).0;
            path == if op.Mkdir? || op.Rmdir? then r.paths[op.parent] + op.name + "/" else r.paths[op.parent] + op.name
  {
    if op.Unlink? || op.Rmdir? { EntryFacts(r, op.parent, op.name); }
  }

  // ---- all peers ----

  ghost predicate AllWhole(reps: seq<Replica>) {
    forall d :: 0 <= d < |reps| ==> Whole(reps[d])
  }

  function ReplayAll(reps: seq<Replica>, kind: P.Kind, body: P.Body, behind: seq<string>): (after: seq<Replica>)
    requires AllWhole(reps) && |behind| == |reps|
    ensures |after| == |reps| && AllWhole(after)
  {
    seq(|reps|, d requires 0 <= d < |reps| => Replay(reps[d], kind, body, behind[d]).0)
  }

  /** A request arrives at the kernel of peer `source`; if its handler tells the others, each
      of them replays the message once, with `behind` in the memory behind its packet. */
  function Issue(reps: seq<Replica>, source: nat, op: Op, behind: seq<string>): (after: seq<Replica>)
    requires AllWhole(reps) && source < |reps| == |behind| && Replicated(op)
    requires Tells(reps[source], op) ==> InField(PathsOf(reps[source], op))
    ensures |after| == |reps|
    ensures AllWhole(after)
  {
    var (r, sent) := Handle(reps[source], op);
    if sent.Nothing? then reps[source := r]
    else ReplayAll(reps, sent.kind, sent.body, behind)[source := r]
  }

  /** All peers live and have the same tree, each is in order, and no flag is up. */
  ghost predicate Agree(reps: seq<Replica>) {
    && reps != []
    && forall d :: 0 <= d < |reps| ==> Sane(reps[d]) && reps[d].flagged == {} && SameTree(reps[0], reps[d])
  }

  lemma PeersSame(reps: seq<Replica>, i: nat, j: nat)
    requires Agree(reps) && i < |reps| && j < |reps|
    ensures SameTree(reps[i], reps[j])
  {
    SameTreeTransitive(reps[0], reps[i], reps[i]);
    SameTreeTransitive(reps[i], reps[0], reps[j]);
  }

  /** A request from `source` that every kernel allows and can repeat by path. */
  ghost predicate Repeats(reps: seq<Replica>, source: nat, op: Op)
    requires AllWhole(reps) && source < |reps| && Replicated(op) && Succeeds(reps[source].names, op)
  {
    && Issuable(reps[source], op) && InField(PathsOf(reps[source], op))
    && forall d :: 0 <= d < |reps| ==> KernelAllows(reps[d].names, op)
  }

  /** The paths of the request arrive everywhere. */
  ghost predicate AllArrive(reps: seq<Replica>, source: nat, op: Op, behind: seq<string>)
    requires AllWhole(reps) && source < |reps| == |behind| && Replicated(op) && Succeeds(reps[source].names, op)
  {
    forall d :: 0 <= d < |reps| && d != source ==> Arrives(op, PathsOf(reps[source], op), behind[d])
  }

  /** If the request makes something, all allocators would hand out the same number. */
  ghost predicate SameNumbers(reps: seq<Replica>, source: nat, op: Op)
    requires AllWhole(reps) && source < |reps|
  {
    Makes(reps[source].names, op) ==>
      forall d :: 0 <= d < |reps| ==> NextInode(reps[d].names) == NextInode(reps[source].names)
  }

  /** What makes a request safe to issue. One that fails is safe anyway. */
  ghost predicate LegalIssue(reps: seq<Replica>, source: nat, op: Op, behind: seq<string>)
    requires AllWhole(reps)
  {
    && source < |reps| == |behind| && Replicated(op)
    && (Succeeds(reps[source].names, op) ==>
          Repeats(reps, source, op) && AllArrive(reps, source, op, behind) && SameNumbers(reps, source, op))
  }

  /** A request that can be repeated on one peer can be on any other with the same tree. */
  lemma RepeatableElsewhere(a: Replica, b: Replica, op: Op)
    requires Whole(a) && Whole(b) && SameTree(a, b) && Repeatable(a, op) && KernelAllows(b.names, op)
    ensures Repeatable(b, op)
    ensures PathsOf(a, op) == PathsOf(b, op)
  {
    if !op.Create? && !op.Mkdir? { OldTree(a, b, op); }
  }

  lemma StepSane(r: Replica, op: Op)
    requires Sane(r) && Whole(r) && Repeatable(r, op)
    ensures Sane(StepOf(r, op))
  {
    StepInv(r.names, op);
    if op.Rmdir? || op.Unlink? { assert NamesFiles(op) && PathSafe(r.names, op); }
    StepPathsIff(r.names, r.paths, op);
  }

  lemma SameStep(a: Replica, b: Replica, op: Op)
    requires Sane(a) && Sane(b) && Whole(a) && Whole(b) && SameTree(a, b) && Repeatable(a, op)
    requires Makes(a.names, op) ==> NextInode(a.names) == NextInode(b.names)
    ensures SameTree(StepOf(a, op), StepOf(b, op))
  {
    if op.Create? || op.Mkdir? {
      NewParent(a, op.parent);
      NewTreeIff(a, b, op);
    } else {
      OldTree(a, b, op);
    }
  }

  lemma NewParent(r: Replica, parent: nat)
    requires Sane(r) && Whole(r) && IsDirectory(r.names.nodes, parent) && r.names.nodes[parent].nlink > 0
    ensures parent != NextInode(r.names)
  {
    NextInodeUnused(r.names);
  }

  lemma ReplayIsStep(r: Replica, op: Op, behind: string)
    requires Sane(r) && Whole(r) && Repeatable(r, op) && r.flagged == {} && Arrives(op, PathsOf(r, op), behind)
    ensures Replay(r, KindOf(op), BodyOf(op, PathsOf(r, op)), behind) == (StepOf(r, op), Nothing)
  {
    CallMatches(r, op, behind);
  }

  lemma IssueIsReplay(reps: seq<Replica>, source: nat, op: Op, behind: seq<string>)
    requires AllWhole(reps) && source < |reps| == |behind| && Repeatable(reps[source], op)
    requires reps[source].flagged == {} && reps[source].alive
    ensures Issue(reps, source, op, behind)
            == ReplayAll(reps, KindOf(op), BodyOf(op, PathsOf(reps[source], op)), behind)
                 [source := StepOf(reps[source], op)]
  {
    HandleIsStep(reps[source], op);
  }

  lemma HandleIsStep(r: Replica, op: Op)
    requires Whole(r) && Repeatable(r, op) && r.flagged == {} && r.alive
    ensures Handle(r, op) == (StepOf(r, op), Sent(KindOf(op), BodyOf(op, PathsOf(r, op))))
  {
    assert r.flagged - {KindOf(op)} == {};
  }

  /** Every peer, the source and those that replay what arrives, makes the very same step. */
  lemma EveryoneSteps(reps: seq<Replica>, source: nat, op: Op, behind: seq<string>, d: nat)
    requires Agree(reps) && AllWhole(reps) && source < |reps| == |behind| && d < |reps|
    requires Replicated(op) && Succeeds(reps[source].names, op) && Repeats(reps, source, op)
    requires d != source ==> Arrives(op, PathsOf(reps[source], op), behind[d])
    ensures Repeatable(reps[d], op) && PathsOf(reps[source], op) == PathsOf(reps[d], op)
    ensures Issue(reps, source, op, behind)[d] == StepOf(reps[d], op)
  {
    PeersSame(reps, source, d);
    RepeatableElsewhere(reps[source], reps[d], op);
    IssueIsReplay(reps, source, op, behind);
    if d != source { ReplayIsStep(reps[d], op, behind[d]); }
  }

  lemma FailureChangesNothing(r: Replica, op: Op)
    requires Whole(r) && Replicated(op) && !Succeeds(r.names, op)
    ensures Handle(r, op) == (r, Nothing)
  {
  }

  /** One request, issued on any peer: afterwards all peers agree again. */
  lemma IssueAgrees(reps: seq<Replica>, source: nat, op: Op, behind: seq<string>)
    requires Agree(reps) && AllWhole(reps) && LegalIssue(reps, source, op, behind)
    ensures Agree(Issue(reps, source, op, behind))
  {
    if Succeeds(reps[source].names, op) {
      var after := Issue(reps, source, op, behind);
      forall d: nat | d < |after|
        ensures Sane(after[d]) && after[d].flagged == {} && SameTree(after[0], after[d])
      {
        StepsTogether(reps, source, op, behind, d);
      }
    } else {
      FailureChangesNothing(reps[source], op);
      assert reps[source := reps[source]] == reps;
    }
  }

  /** Peer `d` after a request: in order, flags down, and with the same tree as peer 0. */
  lemma StepsTogether(reps: seq<Replica>, source: nat, op: Op, behind: seq<string>, d: nat)
    requires Agree(reps) && AllWhole(reps) && LegalIssue(reps, source, op, behind) && d < |reps|
    requires Succeeds(reps[source].names, op)
    ensures var after := Issue(reps, source, op, behind);
            Sane(after[d]) && after[d].flagged == {} && SameTree(after[0], after[d])
  {
    EveryoneSteps(reps, source, op, behind, 0);
    EveryoneSteps(reps, source, op, behind, d);
    StepSane(reps[d], op);
    SameStep(reps[0], reps[d], op);
  }

  // ---- runs ----

  /** A lookup or forget that concerns one peer only, or a request that all peers repeat. */
  datatype Event = Local(rank: nat, op: Op) | Issued(source: nat, op: Op, behind: seq<string>)

  ghost predicate LegalEvent(reps: seq<Replica>, e: Event)
    requires AllWhole(reps)
  {
    match e
    case Local(rank, op) => rank < |reps| && (op.Lookup? || op.Forget?) && KernelAllows(reps[rank].names, op)
    case Issued(source, op, behind) => LegalIssue(reps, source, op, behind)
  }

  ghost function Happen(reps: seq<Replica>, e: Event): (after: seq<Replica>)
    requires AllWhole(reps) && LegalEvent(reps, e)
    ensures |after| == |reps| && AllWhole(after)
  {
    match e
    case Local(rank, op) => reps[rank := Handle(reps[rank], op).0]
    case Issued(source, op, behind) => Issue(reps, source, op, behind)
  }

  lemma LocalAgrees(reps: seq<Replica>, rank: nat, op: Op)
    requires Agree(reps) && AllWhole(reps) && LegalEvent(reps, Local(rank, op))
    ensures Agree(reps[rank := Handle(reps[rank], op).0])
  {
    LocalSane(reps[rank], op);
    LocalSameTree(reps[rank], op);
    OneMoves(reps, rank, Handle(reps[rank], op).0);
  }

  lemma LocalSane(r: Replica, op: Op)
    requires Sane(r) && Whole(r) && (op.Lookup? || op.Forget?) && KernelAllows(r.names, op)
    ensures Sane(Handle(r, op).0)
  {
    StepInv(r.names, op);
    StepPathsIff(r.names, r.paths, op);
  }

  /** A peer that keeps its tree keeps the agreement. */
  lemma OneMoves(reps: seq<Replica>, rank: nat, after: Replica)
    requires Agree(reps) && rank < |reps|
    requires Sane(after) && after.flagged == {} && SameTree(reps[rank], after)
    ensures Agree(reps[rank := after])
  {
    SameTreeTransitive(reps[0], reps[rank], after);
    SameTreeTransitive(reps[0], after, after);
    forall d | 0 <= d < |reps| ensures SameTree(after, reps[d]) {
      SameTreeTransitive(after, reps[0], reps[d]);
    }
  }

  lemma LocalSameTree(r: Replica, op: Op)
    requires Whole(r) && r.alive && (op.Lookup? || op.Forget?) && (op.Forget? ==> op.ino < |r.names.nodes|)
    ensures SameTree(r, Handle(r, op).0) && Handle(r, op).0.flagged == r.flagged
  {
  }

  ghost predicate LegalEvents(reps: seq<Replica>, events: seq<Event>)
    requires AllWhole(reps)
    decreases |events|
  {
    events == [] || (LegalEvent(reps, events[0]) && LegalEvents(Happen(reps, events[0]), events[1..]))
  }

  ghost function AfterEvents(reps: seq<Replica>, events: seq<Event>): (after: seq<Replica>)
    requires AllWhole(reps) && LegalEvents(reps, events)
    ensures |after| == |reps| && AllWhole(after)
    decreases |events|
  {
    if events == [] then reps else AfterEvents(Happen(reps, events[0]), events[1..])
  }

  /** Over every run, from whatever peers the requests come, all peers keep the same tree. */
  lemma {:induction false} ReplicasAgree(reps: seq<Replica>, events: seq<Event>)
    requires Agree(reps) && AllWhole(reps) && LegalEvents(reps, events)
    ensures Agree(AfterEvents(reps, events))
    decreases |events|
  {
    if events != [] {
      match events[0] {
        case Local(rank, op) => LocalAgrees(reps, rank, op);
        case Issued(source, op, behind) => IssueAgrees(reps, source, op, behind);
      }
      ReplicasAgree(Happen(reps, events[0]), events[1..]);
    }
  }

  function MountedEverywhere(p: nat): seq<Replica> {
    seq(p, _ => Replica(Init(), MOUNTED_PATHS, {}, true))
  }

  lemma MountedAgree(p: nat)
    requires p > 0
    ensures Agree(MountedEverywhere(p)) && AllWhole(MountedEverywhere(p))
  {
    InitInv();
    MountedPaths();
  }

  /** So in every reachable state every path leads on all peers to the same inode number. */
  lemma SameFileEverywhere(p: nat, events: seq<Event>, i: nat, j: nat, components: seq<string>)
    requires p > 0 && i < p && j < p
    requires AllWhole(MountedEverywhere(p)) && LegalEvents(MountedEverywhere(p), events)
    ensures var reps := AfterEvents(MountedEverywhere(p), events);
            && |reps[i].names.nodes| == |reps[j].names.nodes|
            && Walk(reps[i].names.nodes, components) == Walk(reps[j].names.nodes, components)
  {
    MountedAgree(p);
    ReplicasAgree(MountedEverywhere(p), events);
    var reps := AfterEvents(MountedEverywhere(p), events);
    PeersSame(reps, i, j);
    SameWalk(reps[i], reps[j], components);
  }
}
