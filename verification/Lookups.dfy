/** What the kernel learns of the namespace by looking names up, one after the other. */
module Lookups {
  import opened NameSpace
  import opened NameSafety
  import opened NameRuns
  import opened PathNames
  import opened PlainTree

  /** The lookups along a path: each in the directory that the one before has answered, until one
      is answered with an error. */
  ghost function LookUpAlong(s: NameState, components: seq<string>): (out: (NameState, Reply))
    requires Closed(s)
    ensures Closed(out.0)
    decreases |components|
  {
    if components == [] then (s, Entry(1))
    else
      var (before, reply) := LookUpAlong(s, components[..|components| - 1]);
      match reply
      case Entry(d) =>
        var (after, replies) := FuseLookup(before, d, components[|components| - 1]);
        (after, if replies == [] then NoReply else replies[0])
      case _ => (before, reply)
  }

  /** One lookup, wherever: what the tree says, and the tree stays. */
  lemma OneLookup(s: NameState, d: nat, name: string)
    requires NameInv(s) && Closed(s)
    ensures NameInv(FuseLookup(s, d, name).0) && TreeOf(FuseLookup(s, d, name).0.nodes) == TreeOf(s.nodes)
    ensures FuseLookup(s, d, name).1
            == if Named(TreeOf(s.nodes), d, name) then [Entry(s.nodes[d].children[name])] else [Error(ENOENT)]
  {
    LookupInv(s, d, name);
    StepServesTree(s, Lookup(d, name));
  }

  /** Looking a path up from the root answers the inode that a walk along it ends at, and "no
      such entry" precisely when the walk ends nowhere; it leaves the tree as it is. */
  lemma {:induction false} LookupsFollowWalk(s: NameState, components: seq<string>)
    requires NameInv(s) && Closed(s)
    ensures var (after, reply) := LookUpAlong(s, components);
            && NameInv(after) && TreeOf(after.nodes) == TreeOf(s.nodes)
            && reply == match Walk(s.nodes, components)
                        case Found(i) => Entry(i)
                        case Missing => Error(ENOENT)
    decreases |components|
  {
    if components != [] {
      var front, name := components[..|components| - 1], components[|components| - 1];
      LookupsFollowWalk(s, front);
      var (before, reply) := LookUpAlong(s, front);
      if reply.Entry? {
        OneLookup(before, reply.ino, name);
        assert TreeOf(before.nodes) == TreeOf(s.nodes);
        NamedIffWalks(s.nodes, reply.ino, name);
        if Named(TreeOf(s.nodes), reply.ino, name) {
          assert TreeOf(before.nodes)[reply.ino] == TreeOf(s.nodes)[reply.ino];
        }
      }
    }
  }

  /** Only directories have entries. */
  lemma NamedIffWalks(nodes: seq<Node>, d: nat, name: string)
    requires TableOk(nodes)
    ensures Named(TreeOf(nodes), d, name) <==> IsDirectory(nodes, d) && name in nodes[d].children
  {
    if d < |nodes| { assert NodeOk(nodes, d); }
  }

  // ---- lookups after other requests ----

  /** What a lookup answers after any request that a kernel sends. */
  lemma LookupAfter(s: NameState, op: Op, d: nat, name: string)
    requires NameInv(s) && Closed(s) && KernelAllows(s, op)
    ensures FuseLookup(Step(s, op).0, d, name).1
            == ServeTree(ServeTree(TreeOf(s.nodes), op, NextInode(s)).0, Lookup(d, name), 0).1
  {
    StepInv(s, op);
    StepServesTree(s, op);
    OneLookup(Step(s, op).0, d, name);
  }

  lemma MadeIsFound(s: NameState, op: Op)
    requires NameInv(s) && Closed(s) && KernelAllows(s, op) && Makes(s, op)
    ensures op.Mknod? || op.Mkdir? || op.Create? || op.MakeSymlink?
    ensures Step(s, op).1 == [Entry(NextInode(s))]
    ensures FuseLookup(Step(s, op).0, op.parent, op.name).1 == [Entry(NextInode(s))]
  {
    StepServesTree(s, op);
    MakesAddNew(s, op);
    LookupAfter(s, op, op.parent, op.name);
  }

  lemma RemovedIsGone(s: NameState, op: Op)
    requires NameInv(s) && Closed(s) && KernelAllows(s, op)
    requires (op.Unlink? || op.Rmdir?) && Step(s, op).1 == [Success]
    ensures FuseLookup(Step(s, op).0, op.parent, op.name).1 == [Error(ENOENT)]
  {
    StepServesTree(s, op);
    LookupAfter(s, op, op.parent, op.name);
  }

  lemma RenamedIsFound(s: NameState, op: Op)
    requires NameInv(s) && Closed(s) && KernelAllows(s, op) && op.Rename? && Step(s, op).1 == [Success]
    ensures FuseLookup(Step(s, op).0, op.parent, op.name).1 == [Error(ENOENT)]
    ensures (op.parent, op.name) != (op.newparent, op.newname) ==>
              FuseLookup(Step(s, op).0, op.newparent, op.newname).1 == FuseLookup(s, op.parent, op.name).1
  {
    StepServesTree(s, op);
    LookupAfter(s, op, op.parent, op.name);
    LookupAfter(s, op, op.newparent, op.newname);
    OneLookup(s, op.parent, op.name);
  }

  lemma LinkedIsFound(s: NameState, op: Op)
    requires NameInv(s) && Closed(s) && KernelAllows(s, op) && op.Link? && Entry(op.ino) in Step(s, op).1
    ensures FuseLookup(Step(s, op).0, op.newparent, op.newname).1 == [Entry(op.ino)]
  {
    StepServesTree(s, op);
    LookupAfter(s, op, op.newparent, op.newname);
  }

  /** What a lookup of the request's name answers once the request has succeeded: the number of
      what was made, nothing under a name that was removed or renamed away, and under the new
      name what the old one stood for. */
  ghost predicate Answered(s: NameState, op: Op)
    requires Closed(s) && (op.Forget? ==> op.ino < |s.nodes|)
  {
    var after, replies := Step(s, op).0, Step(s, op).1;
    && (Makes(s, op) ==>
          && replies == [Entry(NextInode(s))]
          && FuseLookup(after, op.parent, op.name).1 == [Entry(NextInode(s))])
    && ((op.Unlink? || op.Rmdir? || op.Rename?) && replies == [Success] ==>
          FuseLookup(after, op.parent, op.name).1 == [Error(ENOENT)])
    && (op.Rename? && replies == [Success] && (op.parent, op.name) != (op.newparent, op.newname) ==>
          FuseLookup(after, op.newparent, op.newname).1 == FuseLookup(s, op.parent, op.name).1)
    && (op.Link? && Entry(op.ino) in replies ==>
          FuseLookup(after, op.newparent, op.newname).1 == [Entry(op.ino)])
  }

  lemma AnswersHold(s: NameState, op: Op)
    requires NameInv(s) && Closed(s) && KernelAllows(s, op)
    ensures Answered(s, op)
  {
    if Makes(s, op) {
      MadeIsFound(s, op);
    } else if op.Rename? {
      if Step(s, op).1 == [Success] { RenamedIsFound(s, op); }
    } else if op.Unlink? || op.Rmdir? {
      if Step(s, op).1 == [Success] { RemovedIsGone(s, op); }
    } else if op.Link? {
      if Entry(op.ino) in Step(s, op).1 { LinkedIsFound(s, op); }
    }
  }

  /** Where a request leaves the meaning of names alone. */
  predicate Elsewhere(op: Op, d: nat, name: string) {
    match op
    case Lookup(_, _) => true
    case Forget(_, _) => true
    case Rename(parent, oldname, newparent, newname) =>
      (d, name) != (parent, oldname) && (d, name) != (newparent, newname)
    case Link(_, newparent, newname) => (d, name) != (newparent, newname)
    case _ => (d, name) != (op.parent, op.name)
  }

  /** A number without entries, or a new one, can be given to what is made. */
  lemma TreeElsewhere(t: Tree, op: Op, number: nat, d: nat, name: string)
    requires Elsewhere(op, d, name) && (number < |t| ==> t[number].names == map[])
    ensures var after := ServeTree(t, op, number).0;
            && (Named(after, d, name) <==> Named(t, d, name))
            && (Named(t, d, name) ==> after[d].names[name] == t[d].names[name])
  {
  }

  lemma ElsewhereSame(s: NameState, op: Op, d: nat, name: string)
    requires NameInv(s) && Closed(s) && KernelAllows(s, op) && Elsewhere(op, d, name)
    ensures FuseLookup(Step(s, op).0, d, name).1 == FuseLookup(s, d, name).1
  {
    NextInodeUnused(s);
    TreeElsewhere(TreeOf(s.nodes), op, NextInode(s), d, name);
    LookupAfter(s, op, d, name);
    OneLookup(s, d, name);
  }

  /** After every run from mounting: a lookup of the name that the last request was about
      answers what that request says, any other what it did before. */
  lemma AnswersFromInit(ops: seq<Op>, op: Op, d: nat, name: string)
    requires Legal(Init(), ops) && KernelAllows(Run(Init(), ops), op)
    ensures var s := Run(Init(), ops);
            && Answered(s, op)
            && (Elsewhere(op, d, name) ==>
                  FuseLookup(Step(s, op).0, d, name).1 == FuseLookup(s, d, name).1)
  {
    InitInv();
    RunInv(Init(), ops);
    AnswersHold(Run(Init(), ops), op);
    if Elsewhere(op, d, name) { ElsewhereSame(Run(Init(), ops), op, d, name); }
  }

  /** In every reachable state: the lookups along a path from the root end at the inode that
      the path leads to, and otherwise at "no such entry". */
  lemma PathsAnsweredFromInit(ops: seq<Op>, components: seq<string>, i: nat)
    requires Legal(Init(), ops)
    ensures var s := Run(Init(), ops);
            && (LookUpAlong(s, components).1 == Entry(i) <==> Walk(s.nodes, components) == Found(i))
            && (LookUpAlong(s, components).1 == Error(ENOENT) <==> Walk(s.nodes, components) == Missing)
  {
    InitInv();
    RunInv(Init(), ops);
    LookupsFollowWalk(Run(Init(), ops), components);
  }
}
