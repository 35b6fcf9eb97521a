/** Runs of the code at which its laws stop holding: each law's condition is not only needed
    but fails on requests that a kernel does send. */
module Limits {
  import opened NameSpace
  import opened NameSafety
  import opened NameRuns
  import opened LinkLaw
  import opened PathNames
  import opened Partition
  import opened PrefixSums
  import opened References

  // ---- directories moved to another parent ----

  /** The state after requests that a kernel sends by its own rules alone. */
  ghost predicate SentRun(s: NameState, ops: seq<Op>, end: NameState)
    requires Closed(s)
    decreases |ops|
  {
    if ops == [] then s == end else KernelSends(s, ops[0]) && SentRun(Step(s, ops[0]).0, ops[1..], end)
  }

  lemma {:induction false} SentMore(s: NameState, ops: seq<Op>, middle: NameState, op: Op, end: NameState)
    requires Closed(s) && SentRun(s, ops, middle) && Closed(middle)
    requires KernelSends(middle, op) && Step(middle, op).0 == end
    ensures SentRun(s, ops + [op], end)
    decreases |ops|
  {
    if ops == [] {
      assert [op][1..] == [];
    } else {
      assert (ops + [op])[1..] == ops[1..] + [op];
      SentMore(Step(s, ops[0]).0, ops[1..], middle, op, end);
    }
  }

  function DirNode(i: nat, nlink: nat, nlookup: nat, marked: bool, children: map<string, nat>): Node {
    Node(i, Directory, nlink, nlookup, marked, children)
  }

  /** The special inode, the root, and directories 2, 3 and 4. */
  function Tree(rootLinks: nat, root: map<string, nat>, rest: seq<Node>): NameState {
    NameState([FreshNode(0, Special, 0), DirNode(1, rootLinks, 0, false, root)] + rest, [], false)
  }

  function Removed(i: nat): Node { DirNode(i, 0, 1, true, map[]) }

  function Made(i: nat): Node { DirNode(i, 2, 1, false, map[]) }

  const THREE_MADE: NameState := Tree(6, map["b" := 2, "x" := 3, "y" := 4], [Made(2), Made(3), Made(4)])

  const BOTH_MOVED: NameState :=
    Tree(6, map["b" := 2], [DirNode(2, 2, 1, false, map["x" := 3, "y" := 4]), Made(3), Made(4)])

  const BOTH_REMOVED: NameState := Tree(6, map["b" := 2], [Removed(2), Removed(3), Removed(4)])

  /** The mkdir requests for /b, /x and /y. */
  lemma MakeThree()
    ensures Closed(Init())
    ensures SentRun(Init(), [Mkdir(1, "b"), Mkdir(1, "x"), Mkdir(1, "y")], THREE_MADE)
  {
    var one := Tree(4, map["b" := 2], [Made(2)]);
    var two := Tree(5, map["b" := 2, "x" := 3], [Made(2), Made(3)]);
    assert Step(Init(), Mkdir(1, "b")).0 == one;
    assert Step(one, Mkdir(1, "x")).0 == two;
    assert Step(two, Mkdir(1, "y")).0 == THREE_MADE;
    SentMore(Init(), [], Init(), Mkdir(1, "b"), one);
    assert [] + [Mkdir(1, "b")] == [Mkdir(1, "b")];
    SentMore(Init(), [Mkdir(1, "b")], one, Mkdir(1, "x"), two);
    assert [Mkdir(1, "b")] + [Mkdir(1, "x")] == [Mkdir(1, "b"), Mkdir(1, "x")];
    SentMore(Init(), [Mkdir(1, "b"), Mkdir(1, "x")], two, Mkdir(1, "y"), THREE_MADE);
    assert [Mkdir(1, "b"), Mkdir(1, "x")] + [Mkdir(1, "y")] == [Mkdir(1, "b"), Mkdir(1, "x"), Mkdir(1, "y")];
  }

  /** A rename to a free name of another directory. */
  lemma FreeRename(s: NameState, parent: nat, name: string, newparent: nat, newname: string)
    requires Closed(s) && parent != newparent
    requires IsDirectory(s.nodes, parent) && IsDirectory(s.nodes, newparent)
    requires name in s.nodes[parent].children && newname !in s.nodes[newparent].children
    ensures Step(s, Rename(parent, name, newparent, newname)).0 ==
            var into := s.nodes[newparent].UpdateChild(newname, s.nodes[parent].children[name]);
            s.(nodes := s.nodes[newparent := into][parent := s.nodes[parent].DeleteChild(name)])
  {
  }

  /** The removal of a directory without entries. */
  lemma EmptyRmdir(s: NameState, parent: nat, name: string)
    requires Closed(s) && IsDirectory(s.nodes, parent) && name in s.nodes[parent].children
    requires s.nodes[parent].children[name] != parent && s.nodes[parent].nlink > 0
    requires IsDirectory(s.nodes, s.nodes[parent].children[name])
    requires s.nodes[s.nodes[parent].children[name]].children == map[]
    ensures Step(s, Rmdir(parent, name)).0 ==
            var ino := s.nodes[parent].children[name];
            s.(nodes := s.nodes[ino := s.nodes[ino].WithoutLinks()]
                               [parent := s.nodes[parent].RemoveHardLink().DeleteChild(name)])
    ensures Removes(s, parent, name)
  {
    var ino := s.nodes[parent].children[name];
    assert !s.nodes[ino].HasChildren();
    var nodes := s.nodes[parent := s.nodes[parent].RemoveHardLink()];
    var bare := nodes[ino := nodes[ino].WithoutLinks()];
    assert bare[parent := bare[parent].DeleteChild(name)]
        == s.nodes[ino := s.nodes[ino].WithoutLinks()][parent := s.nodes[parent].RemoveHardLink().DeleteChild(name)];
  }

  const ONE_MOVED: NameState :=
    Tree(6, map["b" := 2, "y" := 4], [DirNode(2, 2, 1, false, map["x" := 3]), Made(3), Made(4)])

  const ONE_REMOVED: NameState :=
    Tree(6, map["b" := 2], [DirNode(2, 1, 1, false, map["y" := 4]), Removed(3), Made(4)])

  lemma FirstMove()
    ensures Closed(THREE_MADE) && Step(THREE_MADE, Rename(1, "x", 2, "x")).0 == ONE_MOVED
    ensures KernelAllows(THREE_MADE, Rename(1, "x", 2, "x"))
  {
    FreeRename(THREE_MADE, 1, "x", 2, "x");
    assert map["b" := 2, "x" := 3, "y" := 4] - {"x"} == map["b" := 2, "y" := 4];
    assert map[]["x" := 3] == map["x" := 3];
  }

  lemma SecondMove()
    ensures Closed(ONE_MOVED) && Step(ONE_MOVED, Rename(1, "y", 2, "y")).0 == BOTH_MOVED
    ensures KernelAllows(ONE_MOVED, Rename(1, "y", 2, "y"))
  {
    FreeRename(ONE_MOVED, 1, "y", 2, "y");
    assert map["b" := 2, "y" := 4] - {"y"} == map["b" := 2];
    assert map["x" := 3]["y" := 4] == map["x" := 3, "y" := 4];
  }

  lemma FirstRemoval()
    ensures Closed(BOTH_MOVED) && Step(BOTH_MOVED, Rmdir(2, "x")).0 == ONE_REMOVED
    ensures KernelAllows(BOTH_MOVED, Rmdir(2, "x"))
  {
    EmptyRmdir(BOTH_MOVED, 2, "x");
    assert map["x" := 3, "y" := 4] - {"x"} == map["y" := 4];
  }

  /** Of the four, this is the one that the code cannot take: /b is named and has one link. */
  lemma SecondRemoval()
    ensures Closed(ONE_REMOVED) && Step(ONE_REMOVED, Rmdir(2, "y")).0 == BOTH_REMOVED
    ensures KernelSends(ONE_REMOVED, Rmdir(2, "y")) && !KernelAllows(ONE_REMOVED, Rmdir(2, "y"))
  {
    assert (1, "b") in Refs(ONE_REMOVED.nodes, 2);
    EmptyRmdir(ONE_REMOVED, 2, "y");
    assert map["y" := 4] - {"y"} == map[];
  }

  /** Both directories moved into /b, which gets no links for them. */
  lemma MoveBoth(ops: seq<Op>)
    requires Closed(Init()) && SentRun(Init(), ops, THREE_MADE)
    ensures SentRun(Init(), ops + [Rename(1, "x", 2, "x")] + [Rename(1, "y", 2, "y")], BOTH_MOVED)
  {
    FirstMove();
    SecondMove();
    SentMore(Init(), ops, THREE_MADE, Rename(1, "x", 2, "x"), ONE_MOVED);
    SentMore(Init(), ops + [Rename(1, "x", 2, "x")], ONE_MOVED, Rename(1, "y", 2, "y"), BOTH_MOVED);
  }

  /** Both removed again: /b loses a link with each, its last one with the second. */
  lemma RemoveBoth(ops: seq<Op>)
    requires Closed(Init()) && SentRun(Init(), ops, BOTH_MOVED)
    ensures SentRun(Init(), ops + [Rmdir(2, "x")] + [Rmdir(2, "y")], BOTH_REMOVED)
  {
    FirstRemoval();
    SecondRemoval();
    SentMore(Init(), ops, BOTH_MOVED, Rmdir(2, "x"), ONE_REMOVED);
    SentMore(Init(), ops + [Rmdir(2, "x")], ONE_REMOVED, Rmdir(2, "y"), BOTH_REMOVED);
  }

  /** A run that breaks reclamation safety: two directories moved into /b and removed there
      leave /b named but without links, and once the kernel forgets it, /b is queued for reuse
      while the root still names it. */
  lemma NamedDirectoryQueued() returns (ops: seq<Op>, end: NameState)
    ensures Closed(Init()) && SentRun(Init(), ops, end)
    ensures |end.nodes| == 5 && "b" in end.nodes[1].children && end.nodes[1].children["b"] == 2
    ensures end.nodes[2].nlink == 0 && end.queue == [2]
    ensures !NameInv(end)
  {
    MakeThree();
    ops := [Mkdir(1, "b"), Mkdir(1, "x"), Mkdir(1, "y")];
    MoveBoth(ops);
    ops := ops + [Rename(1, "x", 2, "x")] + [Rename(1, "y", 2, "y")];
    RemoveBoth(ops);
    ops := ops + [Rmdir(2, "x")] + [Rmdir(2, "y")];
    end := Forgotten();
    SentMore(Init(), ops, BOTH_REMOVED, Forget(2, 1), end);
    ops := ops + [Forget(2, 1)];
  }

  /** The kernel's last reference to /b given back. */
  lemma Forgotten() returns (end: NameState)
    ensures Closed(BOTH_REMOVED) && KernelSends(BOTH_REMOVED, Forget(2, 1))
    ensures Step(BOTH_REMOVED, Forget(2, 1)).0 == end
    ensures |end.nodes| == 5 && "b" in end.nodes[1].children && end.nodes[1].children["b"] == 2
    ensures end.nodes[2].nlink == 0 && end.queue == [2]
    ensures !NameInv(end)
  {
    end := Step(BOTH_REMOVED, Forget(2, 1)).0;
    if TableOk(end.nodes) {
      NamedHasLink(end.nodes, 1, "b");
    }
  }

  // ---- link counts ----

  function File(i: nat): Node { Node(i, Regular, 1, 1, false, map[]) }

  const TWO_FILES: NameState := Tree(3, map["a" := 2, "b" := 3], [File(2), File(3)])

  lemma MakeTwoFiles()
    ensures Legal(Init(), [Create(1, "a"), Create(1, "b")])
    ensures Run(Init(), [Create(1, "a"), Create(1, "b")]) == TWO_FILES
    ensures AllSpareFiles(Init(), [Create(1, "a"), Create(1, "b")])
  {
    var one := Tree(3, map["a" := 2], [File(2)]);
    assert Step(Init(), Create(1, "a")).0 == one;
    assert Step(one, Create(1, "b")).0 == TWO_FILES;
    assert [Create(1, "a"), Create(1, "b")][1..] == [Create(1, "b")] && [Create(1, "b")][1..] == [];
  }

  /** A file renamed over another leaves that one with a link and no entry. */
  lemma FileCountOff()
    ensures Legal(Init(), [Create(1, "a"), Create(1, "b")])
    ensures var s := Run(Init(), [Create(1, "a"), Create(1, "b")]);
            KernelAllows(s, Rename(1, "a", 1, "b")) && !FilesExact(Step(s, Rename(1, "a", 1, "b")).0.nodes)
  {
    var ops := [Create(1, "a"), Create(1, "b")];
    MakeTwoFiles();
    InitInv();
    RunInv(Init(), ops);
    FileCountsFromInit(ops);
    StepFilesIff(TWO_FILES, Rename(1, "a", 1, "b"));
  }

  const TWO_DIRECTORIES: NameState := Tree(5, map["b" := 2, "x" := 3], [Made(2), Made(3)])

  lemma MakeTwoDirectories()
    ensures Sent(Init(), [Mkdir(1, "b"), Mkdir(1, "x")])
    ensures AllSpareDirectories(Init(), [Mkdir(1, "b"), Mkdir(1, "x")])
    ensures Legal(Init(), [Mkdir(1, "b"), Mkdir(1, "x")])
    ensures Run(Init(), [Mkdir(1, "b"), Mkdir(1, "x")]) == TWO_DIRECTORIES
  {
    var one := Tree(4, map["b" := 2], [Made(2)]);
    assert Step(Init(), Mkdir(1, "b")).0 == one;
    assert Step(one, Mkdir(1, "x")).0 == TWO_DIRECTORIES;
    assert [Mkdir(1, "b"), Mkdir(1, "x")][1..] == [Mkdir(1, "x")] && [Mkdir(1, "x")][1..] == [];
  }

  /** A directory moved to a free name in another one takes no link with it. */
  lemma DirectoryCountOff()
    ensures Legal(Init(), [Mkdir(1, "b"), Mkdir(1, "x")])
    ensures var s := Run(Init(), [Mkdir(1, "b"), Mkdir(1, "x")]);
            KernelAllows(s, Rename(1, "x", 2, "x")) && !DirsExact(Step(s, Rename(1, "x", 2, "x")).0.nodes)
  {
    var ops := [Mkdir(1, "b"), Mkdir(1, "x")];
    MakeTwoDirectories();
    InitInv();
    RunInv(Init(), ops);
    DirectoryCountsFromInit(ops);
    StepDirsIff(TWO_DIRECTORIES, Rename(1, "x", 2, "x"));
  }

  // ---- transfer counts ----

  /** The block size of the client-server version. */
  const SINGLE_BLOCK_SIZE: nat := 131072

  /** The counts of a transfer of 2 GiB do not fit. */
  lemma TwoGibibytesOverflow(p: nat)
    requires p > 0
    ensures BlockCount(0x8000_0000, SINGLE_BLOCK_SIZE) == 16384
    ensures !CountsExact(Scaled(Shares(16384, p), SINGLE_BLOCK_SIZE))
  {
    BlockCountUnique(0x8000_0000, SINGLE_BLOCK_SIZE, 16384);
    CountsExactIff(16384, p, SINGLE_BLOCK_SIZE);
  }

  // ---- a renamed directory ----

  const NAMED_B: NameState := Tree(4, map["b" := 2], [Made(2)])
  const NAMED_C: NameState := Tree(4, map["c" := 2], [Made(2)])

  lemma RenamedToC()
    ensures Closed(Init()) && Step(Init(), Mkdir(1, "b")).0 == NAMED_B
    ensures Closed(NAMED_B) && Step(NAMED_B, Rename(1, "b", 1, "c")).0 == NAMED_C
    ensures NextPaths(Init(), MOUNTED_PATHS, Mkdir(1, "b")) == ["", "/", "/b/"]
    ensures NextPaths(NAMED_B, ["", "/", "/b/"], Rename(1, "b", 1, "c")) == ["", "/", "/b/"]
    ensures KernelAllows(Init(), Mkdir(1, "b")) && KernelAllows(NAMED_B, Rename(1, "b", 1, "c"))
  {
    assert map["b" := 2]["c" := 2] - {"b"} == map["c" := 2];
    assert "/" + "b" + "/" == "/b/";
  }

  lemma WalksFromRoot(nodes: seq<Node>, name: string)
    requires IsDirectory(nodes, 1)
    ensures Walk(nodes, [name]) == if name in nodes[1].children then Found(nodes[1].children[name]) else Missing
  {
    WalkChild(nodes, [], name);
    assert [] + [name] == [name];
  }

  lemma ComponentsOfB()
    ensures Components("/b/") == ["b"]
  {
    ComponentsOfChild("/", "b");
    assert "/"[..0] == "";
    assert Components("/") == [] && [] + ["b"] == ["b"];
    assert "/" + "b" + "/" == "/b/";
  }

  lemma RenamedRun()
    ensures Legal(Init(), [Mkdir(1, "b"), Rename(1, "b", 1, "c")])
    ensures Run(Init(), [Mkdir(1, "b"), Rename(1, "b", 1, "c")]) == NAMED_C
    ensures RunPaths(Init(), MOUNTED_PATHS, [Mkdir(1, "b"), Rename(1, "b", 1, "c")]) == ["", "/", "/b/"]
  {
    var ops := [Mkdir(1, "b"), Rename(1, "b", 1, "c")];
    RenamedToC();
    assert ops[1..] == [ops[1]] && ops[1..][1..] == [];
  }

  lemma StaleWalks()
    ensures Walk(NAMED_C.nodes, ["c"]) == Found(2)
    ensures Walk(NAMED_C.nodes, Components("/b/")) == Missing
    ensures IsDirectory(NAMED_C.nodes, 2) && NAMED_C.nodes[2].nlink > 0
  {
    ComponentsOfB();
    WalksFromRoot(NAMED_C.nodes, "b");
    WalksFromRoot(NAMED_C.nodes, "c");
  }

  /** /b renamed to /c keeps the path "/b/", which leads nowhere any more. */
  lemma StalePath() returns (end: NameState, paths: seq<string>)
    ensures Legal(Init(), [Mkdir(1, "b"), Rename(1, "b", 1, "c")])
    ensures end == Run(Init(), [Mkdir(1, "b"), Rename(1, "b", 1, "c")])
    ensures paths == RunPaths(Init(), MOUNTED_PATHS, [Mkdir(1, "b"), Rename(1, "b", 1, "c")])
    ensures IsDirectory(end.nodes, 2) && end.nodes[2].nlink > 0 && |paths| == 3 && paths[2] == "/b/"
    ensures Walk(end.nodes, ["c"]) == Found(2) && Walk(end.nodes, Components(paths[2])) == Missing
  {
    RenamedRun();
    StaleWalks();
    end, paths := NAMED_C, ["", "/", "/b/"];
  }
}
