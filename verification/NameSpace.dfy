/** The inode table and the name space as one value: what every namespace request does to it.
    A counter that is decremented at zero wraps to the largest 64-bit value, as in the code. */
module NameSpace {

  const RECLAMATION_THRESHOLD: nat := 256
  const MAX_FILENAME_LENGTH: nat := 1024
  const TWO_64: nat := 0x1_0000_0000_0000_0000

  datatype Kind = Special | Directory | Regular | Symlink

  datatype Node = Node(ino: nat, kind: Kind, nlink: nat, nlookup: nat, marked: bool, children: map<string, nat>)
  {
    function Lookup(): Node { this.(nlookup := nlookup + 1) }

    function Forget(n: nat): Node {
      this.(nlookup := if n <= nlookup then nlookup - n else (nlookup - n) % TWO_64)
    }

    function AddHardLink(): Node { this.(nlink := nlink + 1) }

    function RemoveHardLink(): Node {
      var left := if nlink == 0 then TWO_64 - 1 else nlink - 1;
      this.(nlink := left, marked := marked || left == 0)
    }

    /** Hard links removed one by one until none is left. */
    function WithoutLinks(): Node {
      if nlink == 0 then this else this.(nlink := 0, marked := true)
    }

    function UpdateChild(name: string, child: nat): Node { this.(children := children[name := child]) }

    function DeleteChild(name: string): Node { this.(children := children - {name}) }

    /** Only "." and ".." do not count as children. */
    predicate HasChildren() { exists n :: n in children && n != "." && n != ".." }
  }

  /** The inode table, the queue of deleted inode numbers, and the reclaiming mode. */
  datatype NameState = NameState(nodes: seq<Node>, queue: seq<nat>, reclaiming: bool)

  datatype Errno = ENOENT | EISDIR | EPERM | EEXIST | ENAMETOOLONG

  datatype Reply = Error(code: Errno) | Success | Entry(ino: nat) | NoReply

  type Outcome = (NameState, seq<Reply>)

  /** What the pointers of the table rely on: every stored inode number is in the table. */
  ghost predicate Closed(s: NameState) {
    && (forall k :: 0 <= k < |s.queue| ==> s.queue[k] < |s.nodes|)
    && (forall d, n :: 0 <= d < |s.nodes| && n in s.nodes[d].children ==> s.nodes[d].children[n] < |s.nodes|)
  }

  predicate IsDirectory(nodes: seq<Node>, i: nat) {
    i < |nodes| && nodes[i].kind == Directory
  }

  function FreshNode(ino: nat, kind: Kind, nlink: nat): Node {
    Node(ino, kind, nlink, 0, false, map[])
  }

  /** The mode after an empty queue has switched it off. */
  predicate Reclaiming(s: NameState) {
    |s.queue| > 0 && s.reclaiming
  }

  /** The number that the next inode gets. */
  function NextInode(s: NameState): nat {
    if Reclaiming(s) then s.queue[0] else |s.nodes|
  }

  function RegisterINode(s: NameState, kind: Kind, nlink: nat): (after: NameState)
    requires Closed(s)
    ensures Closed(after) && NextInode(s) < |after.nodes| && |s.nodes| <= |after.nodes|
  {
    var ino := NextInode(s);
    if Reclaiming(s) then
      NameState(s.nodes[ino := FreshNode(ino, kind, nlink)], s.queue[1..], true)
    else
      NameState(s.nodes + [FreshNode(ino, kind, nlink)], s.queue, false)
  }

  /** The state after mounting: a special inode 0 and the root directory. */
  function Init(): (s: NameState)
    ensures Closed(s)
  {
    NameState([FreshNode(0, Special, 0), FreshNode(1, Directory, 3)], [], false)
  }

  function FuseLookup(s: NameState, parent: nat, name: string): (o: Outcome)
    requires Closed(s)
    ensures Closed(o.0)
  {
    if !IsDirectory(s.nodes, parent) then (s, [Error(ENOENT)])
    else if name !in s.nodes[parent].children then (s, [Error(ENOENT)])
    else
      var ino := s.nodes[parent].children[name];
      (s.(nodes := s.nodes[ino := s.nodes[ino].Lookup()]), [Entry(ino)])
  }

  function FuseForget(s: NameState, ino: nat, n: nat): (o: Outcome)
    requires Closed(s) && ino < |s.nodes|
    ensures Closed(o.0)
  {
    var node := s.nodes[ino].Forget(n);
    var nodes := s.nodes[ino := node];
    if node.nlookup == 0 && node.nlink == 0 then
      var queue := s.queue + [ino];
      (NameState(nodes, queue, s.reclaiming || |queue| > RECLAMATION_THRESHOLD), [NoReply])
    else
      (s.(nodes := nodes), [NoReply])
  }

  /** Common part of the handlers that make something new inside a directory. */
  function AddNew(s: NameState, parent: nat, name: string, kind: Kind): (o: Outcome)
    requires Closed(s) && IsDirectory(s.nodes, parent)
    ensures Closed(o.0)
  {
    var ino := NextInode(s);
    var registered := RegisterINode(s, kind, if kind == Directory then 2 else 1);
    var dir := registered.nodes[parent].UpdateChild(name, ino);
    var nodes := registered.nodes[parent := if kind == Directory then dir.AddHardLink() else dir];
    (registered.(nodes := nodes[ino := nodes[ino].Lookup()]), [Entry(ino)])
  }

  /** `kind` is the file type of the requested mode; only directories and regular files work. */
  function FuseMknod(s: NameState, parent: nat, name: string, kind: Kind): (o: Outcome)
    requires Closed(s)
    ensures Closed(o.0)
  {
    if parent >= |s.nodes| then (s, [Error(ENOENT)])
    else if !IsDirectory(s.nodes, parent) then (s, [Error(EISDIR)])
    else if |name| > MAX_FILENAME_LENGTH then (s, [Error(ENAMETOOLONG)])
    else if kind != Directory && kind != Regular then (s, [Error(ENOENT)])
    else AddNew(s, parent, name, kind)
  }

  function FuseMkdir(s: NameState, parent: nat, name: string): (o: Outcome)
    requires Closed(s)
    ensures Closed(o.0)
  {
    if parent >= |s.nodes| then (s, [Error(ENOENT)])
    else if !IsDirectory(s.nodes, parent) then (s, [Error(EISDIR)])
    else AddNew(s, parent, name, Directory)
  }

  function FuseSymlink(s: NameState, parent: nat, name: string): (o: Outcome)
    requires Closed(s)
    ensures Closed(o.0)
  {
    if parent >= |s.nodes| then (s, [Error(ENOENT)])
    else if !IsDirectory(s.nodes, parent) then (s, [Error(EISDIR)])
    else AddNew(s, parent, name, Symlink)
  }

  function FuseCreate(s: NameState, parent: nat, name: string): (o: Outcome)
    requires Closed(s)
    ensures Closed(o.0)
  {
    if !IsDirectory(s.nodes, parent) then (s, [Error(ENOENT)])
    else if |name| > MAX_FILENAME_LENGTH then (s, [Error(ENAMETOOLONG)])
    else AddNew(s, parent, name, Regular)
  }

  function FuseUnlink(s: NameState, parent: nat, name: string): (o: Outcome)
    requires Closed(s)
    ensures Closed(o.0)
  {
    if parent >= |s.nodes| then (s, [Error(ENOENT)])
    else if !IsDirectory(s.nodes, parent) then (s, [Error(EISDIR)])
    else if name !in s.nodes[parent].children then (s, [Error(ENOENT)])
    else
      var ino := s.nodes[parent].children[name];
      var nodes := s.nodes[ino := s.nodes[ino].RemoveHardLink()];
      (s.(nodes := nodes[parent := nodes[parent].DeleteChild(name)]), [Success])
  }

  function FuseRmdir(s: NameState, parent: nat, name: string): (o: Outcome)
    requires Closed(s)
    ensures Closed(o.0)
  {
    if parent >= |s.nodes| then (s, [Error(ENOENT)])
    else if !IsDirectory(s.nodes, parent) then (s, [Error(EISDIR)])
    else if name !in s.nodes[parent].children then (s, [Error(ENOENT)])
    else
      var ino := s.nodes[parent].children[name];
      if s.nodes[ino].kind != Directory then (s, [Error(EISDIR)])
      else if s.nodes[ino].HasChildren() then (s, [Error(EPERM)])
      else
        var nodes := s.nodes[parent := s.nodes[parent].RemoveHardLink()];
        var bare := nodes[ino := nodes[ino].WithoutLinks()];
        (s.(nodes := bare[parent := bare[parent].DeleteChild(name)]), [Success])
  }

  /** Whether the new name of a rename is taken by a directory. */
  predicate ReplacesDirectory(s: NameState, newparent: nat, newname: string)
    requires Closed(s) && newparent < |s.nodes|
  {
    var children := s.nodes[newparent].children;
    newname in children && children[newname] > 0 && s.nodes[children[newname]].kind == Directory
  }

  /** The link counts of the two parents after the replaced directory has been accounted for. */
  function RelinkedParents(s: NameState, parent: nat, newparent: nat, newname: string): seq<Node>
    requires Closed(s) && parent < |s.nodes| && newparent < |s.nodes|
  {
    if ReplacesDirectory(s, newparent, newname) then
      var nodes := s.nodes[parent := s.nodes[parent].RemoveHardLink()];
      nodes[newparent := nodes[newparent].AddHardLink()]
    else s.nodes
  }

  function FuseRename(s: NameState, parent: nat, name: string, newparent: nat, newname: string): (o: Outcome)
    requires Closed(s)
    ensures Closed(o.0)
  {
    if parent >= |s.nodes| then (s, [Error(ENOENT)])
    else if !IsDirectory(s.nodes, parent) then (s, [Error(EISDIR)])
    else if name !in s.nodes[parent].children then (s, [Error(ENOENT)])
    else if newparent >= |s.nodes| then (s, [Error(ENOENT)])
    else if !IsDirectory(s.nodes, newparent) then (s, [Error(EISDIR)])
    else
      var ino := s.nodes[parent].children[name];
      var nodes := RelinkedParents(s, parent, newparent, newname);
      var updated := nodes[newparent := nodes[newparent].UpdateChild(newname, ino)];
      (s.(nodes := updated[parent := updated[parent].DeleteChild(name)]), [Success])
  }

  /** An existing new name is reported, but the handler goes on and links all the same. */
  function FuseLink(s: NameState, ino: nat, newparent: nat, newname: string): (o: Outcome)
    requires Closed(s)
    ensures Closed(o.0)
  {
    if newparent >= |s.nodes| then (s, [Error(ENOENT)])
    else if !IsDirectory(s.nodes, newparent) then (s, [Error(EISDIR)])
    else if ino >= |s.nodes| then (s, [Error(ENOENT)])
    else
      var children := s.nodes[newparent].children;
      var complaint := if newname in children && children[newname] > 0 then [Error(EEXIST)] else [];
      var nodes := s.nodes[newparent := s.nodes[newparent].UpdateChild(newname, ino)];
      (s.(nodes := nodes[ino := nodes[ino].AddHardLink().Lookup()]), complaint + [Entry(ino)])
  }

  datatype Op =
    | Lookup(parent: nat, name: string)
    | Forget(ino: nat, count: nat)
    | Mknod(parent: nat, name: string, kind: Kind)
    | Mkdir(parent: nat, name: string)
    | Create(parent: nat, name: string)
    | MakeSymlink(parent: nat, name: string)
    | Unlink(parent: nat, name: string)
    | Rmdir(parent: nat, name: string)
    | Rename(parent: nat, name: string, newparent: nat, newname: string)
    | Link(ino: nat, newparent: nat, newname: string)

  function Step(s: NameState, op: Op): (o: Outcome)
    requires Closed(s)
    requires op.Forget? ==> op.ino < |s.nodes|
    ensures Closed(o.0)
  {
    match op
    case Lookup(parent, name) => FuseLookup(s, parent, name)
    case Forget(ino, count) => FuseForget(s, ino, count)
    case Mknod(parent, name, kind) => FuseMknod(s, parent, name, kind)
    case Mkdir(parent, name) => FuseMkdir(s, parent, name)
    case Create(parent, name) => FuseCreate(s, parent, name)
    case MakeSymlink(parent, name) => FuseSymlink(s, parent, name)
    case Unlink(parent, name) => FuseUnlink(s, parent, name)
    case Rmdir(parent, name) => FuseRmdir(s, parent, name)
    case Rename(parent, name, newparent, newname) => FuseRename(s, parent, name, newparent, newname)
    case Link(ino, newparent, newname) => FuseLink(s, ino, newparent, newname)
  }

  /** Whether a request makes a new inode. */
  predicate Makes(s: NameState, op: Op)
    requires Closed(s)
  {
    match op
    case Mknod(parent, name, kind) =>
      IsDirectory(s.nodes, parent) && |name| <= MAX_FILENAME_LENGTH && (kind == Directory || kind == Regular)
    case Mkdir(parent, name) => IsDirectory(s.nodes, parent)
    case MakeSymlink(parent, name) => IsDirectory(s.nodes, parent)
    case Create(parent, name) => IsDirectory(s.nodes, parent) && |name| <= MAX_FILENAME_LENGTH
    case _ => false
  }

  /** The table grows by one when a new inode is made and none is reclaimed. */
  lemma TableGrowth(s: NameState, op: Op)
    requires Closed(s) && (op.Forget? ==> op.ino < |s.nodes|)
    ensures |Step(s, op).0.nodes| == |s.nodes| + (if Makes(s, op) && !Reclaiming(s) then 1 else 0)
  {
  }

  /** The kind of inode that a request makes. */
  function NewKind(op: Op): Kind {
    match op
    case Mknod(_, _, kind) => kind
    case Mkdir(_, _) => Directory
    case MakeSymlink(_, _) => Symlink
    case _ => Regular
  }

  /** Whatever makes something makes it in the same way. */
  lemma MakesAddNew(s: NameState, op: Op)
    requires Closed(s) && Makes(s, op)
    ensures op.Mknod? || op.Mkdir? || op.Create? || op.MakeSymlink?
    ensures IsDirectory(s.nodes, op.parent)
    ensures Step(s, op) == AddNew(s, op.parent, op.name, NewKind(op))
  {
  }
}
