/** Whole runs of namespace requests: reclamation safety, deletion order, and the space bound. */
module NameRuns {
  import opened NameSpace
  import opened References
  import opened NameSafety

  /** The kernel's rules hold before every request of the run. */
  ghost predicate Legal(s: NameState, ops: seq<Op>)
    requires Closed(s)
    decreases |ops|
  {
    ops == [] || (KernelAllows(s, ops[0]) && Legal(Step(s, ops[0]).0, ops[1..]))
  }

  ghost function Run(s: NameState, ops: seq<Op>): (after: NameState)
    requires Closed(s) && Legal(s, ops)
    ensures Closed(after)
    decreases |ops|
  {
    if ops == [] then s else Run(Step(s, ops[0]).0, ops[1..])
  }

  /** The kernel's own rules hold before every request of the run. */
  ghost predicate Sent(s: NameState, ops: seq<Op>)
    requires Closed(s)
    decreases |ops|
  {
    ops == [] || (KernelSends(s, ops[0]) && Sent(Step(s, ops[0]).0, ops[1..]))
  }

  /** The invariant holds before and after every request of the run. */
  ghost predicate SafeThroughout(s: NameState, ops: seq<Op>)
    requires Closed(s) && Sent(s, ops)
    decreases |ops|
  {
    NameInv(s) && (ops == [] || SafeThroughout(Step(s, ops[0]).0, ops[1..]))
  }

  /** Of the runs that a kernel sends by its own rules, the legal ones are precisely those in
      which the invariant never fails. */
  lemma {:induction false} LegalIffSafe(s: NameState, ops: seq<Op>)
    requires NameInv(s) && Closed(s) && Sent(s, ops)
    ensures Legal(s, ops) <==> SafeThroughout(s, ops)
    decreases |ops|
  {
    if ops != [] {
      StepInvIff(s, ops[0]);
      if KernelAllows(s, ops[0]) { LegalIffSafe(Step(s, ops[0]).0, ops[1..]); }
    }
  }

  lemma LegalIffSafeFromInit(ops: seq<Op>)
    requires Sent(Init(), ops)
    ensures Legal(Init(), ops) <==> SafeThroughout(Init(), ops)
  {
    InitInv();
    LegalIffSafe(Init(), ops);
  }

  lemma {:induction false} RunInv(s: NameState, ops: seq<Op>)
    requires NameInv(s) && Closed(s) && Legal(s, ops)
    ensures NameInv(Run(s, ops))
    decreases |ops|
  {
    if ops != [] {
      StepInv(s, ops[0]);
      RunInv(Step(s, ops[0]).0, ops[1..]);
    }
  }

  /** In every reachable state each directory entry names an inode of the table that has a
      link, so it is not queued; and the number that the next new inode gets is one that no
      entry names, that the kernel does not hold, and that is neither special nor the root. */
  lemma ReclamationSafety(ops: seq<Op>)
    requires Legal(Init(), ops)
    ensures var s := Run(Init(), ops);
            && (forall d, name :: 0 <= d < |s.nodes| && name in s.nodes[d].children ==>
                                    var i := s.nodes[d].children[name];
                                    i < |s.nodes| && s.nodes[i].nlink > 0 && i !in s.queue)
            && NextInode(s) >= 2
            && Refs(s.nodes, NextInode(s)) == {}
            && (NextInode(s) < |s.nodes| ==> Dead(s.nodes[NextInode(s)]))
  {
    InitInv();
    RunInv(Init(), ops);
    var s := Run(Init(), ops);
    InvClosed(s);
    NextInodeUnused(s);
    forall d, name | 0 <= d < |s.nodes| && name in s.nodes[d].children
      ensures s.nodes[s.nodes[d].children[name]].nlink > 0
    {
      NamedHasLink(s.nodes, d, name);
    }
  }

  /** In every reachable state the queue holds exactly the dead inodes, once each, and slot
      `i` of the table holds inode number `i`. */
  lemma QueueExactAlways(ops: seq<Op>)
    requires Legal(Init(), ops)
    ensures QueueExact(Run(Init(), ops))
    ensures forall i :: 0 <= i < |Run(Init(), ops).nodes| ==> Run(Init(), ops).nodes[i].ino == i
  {
    InitInv();
    RunInv(Init(), ops);
    var s := Run(Init(), ops);
    forall i: nat | i < |s.nodes| ensures s.nodes[i].ino == i {
      assert NodeOk(s.nodes, i);
    }
  }

  // ---- order of deletion and reuse ----

  /** The inode number that a request adds to the queue, if any. */
  ghost function Deletes(s: NameState, op: Op): seq<nat>
    requires Closed(s) && (op.Forget? ==> op.ino < |s.nodes|)
  {
    if op.Forget? && Dead(s.nodes[op.ino].Forget(op.count)) then [op.ino] else []
  }

  /** The inode number that a request reuses, if any. */
  ghost function Reuses(s: NameState, op: Op): seq<nat>
    requires Closed(s)
  {
    if Makes(s, op) && Reclaiming(s) then [s.queue[0]] else []
  }

  ghost function AllDeleted(s: NameState, ops: seq<Op>): seq<nat>
    requires Closed(s) && Legal(s, ops)
    decreases |ops|
  {
    if ops == [] then [] else Deletes(s, ops[0]) + AllDeleted(Step(s, ops[0]).0, ops[1..])
  }

  ghost function AllReused(s: NameState, ops: seq<Op>): seq<nat>
    requires Closed(s) && Legal(s, ops)
    decreases |ops|
  {
    if ops == [] then [] else Reuses(s, ops[0]) + AllReused(Step(s, ops[0]).0, ops[1..])
  }

  lemma StepQueue(s: NameState, op: Op)
    requires Closed(s) && KernelAllows(s, op)
    ensures s.queue + Deletes(s, op) == Reuses(s, op) + Step(s, op).0.queue
  {
    if Reuses(s, op) != [] {
      assert s.queue == [s.queue[0]] + s.queue[1..];
    }
  }

  /** Numbers are reused in the order of their deletion: what was deleted is what was
      reused followed by what still waits. */
  lemma {:induction false} ReuseInDeletionOrder(s: NameState, ops: seq<Op>)
    requires Closed(s) && Legal(s, ops)
    ensures s.queue + AllDeleted(s, ops) == AllReused(s, ops) + Run(s, ops).queue
    decreases |ops|
  {
    if ops != [] {
      var next, rest := Step(s, ops[0]).0, ops[1..];
      StepQueue(s, ops[0]);
      ReuseInDeletionOrder(next, rest);
      Regroup(s.queue, Deletes(s, ops[0]), AllDeleted(next, rest), Reuses(s, ops[0]), next.queue,
              AllReused(next, rest), Run(next, rest).queue);
    }
  }

  lemma Regroup(q: seq<nat>, d: seq<nat>, ds: seq<nat>, r: seq<nat>, q': seq<nat>, rs: seq<nat>, q'': seq<nat>)
    requires q + d == r + q' && q' + ds == rs + q''
    ensures q + (d + ds) == (r + rs) + q''
  {
    assert q + (d + ds) == (q + d) + ds == r + (q' + ds) == (r + rs) + q'';
  }

  // ---- how large the table gets ----

  /** The inodes that are linked or held. */
  ghost function Live(s: NameState): set<nat> {
    set i: nat | 1 <= i < |s.nodes| && !Dead(s.nodes[i])
  }

  ghost function Numbers(n: nat): (numbers: set<nat>)
    ensures forall i :: i in numbers <==> 1 <= i < n
  {
    if n <= 1 then {} else Numbers(n - 1) + {n - 1}
  }

  lemma {:induction false} NumbersSize(n: nat)
    requires n >= 1
    ensures |Numbers(n)| == n - 1
  {
    if n > 1 {
      NumbersSize(n - 1);
      assert n - 1 !in Numbers(n - 1);
    }
  }

  ghost function Elements(q: seq<nat>): set<nat> { set i | i in q }

  lemma {:induction false} ElementsSize(q: seq<nat>)
    requires NoDuplicates(q)
    ensures |Elements(q)| == |q|
  {
    if q != [] {
      var rest, last := q[..|q| - 1], q[|q| - 1];
      ElementsSize(rest);
      assert q == rest + [last];
      assert last !in rest;
      assert Elements(q) == Elements(rest) + {last};
    } else {
      assert Elements(q) == {};
    }
  }

  /** The table is made of the special inode, the live inodes and the queued ones. */
  lemma TableSize(s: NameState)
    requires NameInv(s)
    ensures |s.nodes| == 1 + |Live(s)| + |s.queue|
  {
    NumbersSize(|s.nodes|);
    ElementsSize(s.queue);
    assert Numbers(|s.nodes|) == Live(s) + Elements(s.queue);
    assert Live(s) !! Elements(s.queue);
  }

  /** The largest number of live inodes that the run passes through, at least `peak`. */
  ghost function Peak(s: NameState, ops: seq<Op>, peak: nat): nat
    requires Closed(s) && Legal(s, ops)
    decreases |ops|
  {
    var here := if |Live(s)| > peak then |Live(s)| else peak;
    if ops == [] then here else Peak(Step(s, ops[0]).0, ops[1..], here)
  }

  const OVERHEAD: nat := RECLAMATION_THRESHOLD + 1

  /** The table grows only when nothing is being reclaimed, and then the queue is short. */
  lemma StepSpace(s: NameState, op: Op, peak: nat)
    requires NameInv(s) && Closed(s) && KernelAllows(s, op)
    requires |s.nodes| <= peak + OVERHEAD
    ensures |Step(s, op).0.nodes| <= (if |Live(Step(s, op).0)| > peak then |Live(Step(s, op).0)| else peak) + OVERHEAD
  {
    var after := Step(s, op).0;
    StepInv(s, op);
    if |after.nodes| > |s.nodes| {
      assert !after.reclaiming;
      TableSize(after);
    }
  }

  /** Over every run the table never exceeds the peak number of linked or held inodes by
      more than 257. */
  lemma {:induction false} SpaceBound(s: NameState, ops: seq<Op>, peak: nat)
    requires NameInv(s) && Closed(s) && Legal(s, ops)
    requires |s.nodes| <= (if |Live(s)| > peak then |Live(s)| else peak) + OVERHEAD
    ensures |Run(s, ops).nodes| <= Peak(s, ops, peak) + OVERHEAD
    decreases |ops|
  {
    if ops != [] {
      var here := if |Live(s)| > peak then |Live(s)| else peak;
      StepInv(s, ops[0]);
      StepSpace(s, ops[0], here);
      SpaceBound(Step(s, ops[0]).0, ops[1..], here);
    }
  }

  lemma SpaceBoundFromInit(ops: seq<Op>)
    requires Legal(Init(), ops)
    ensures |Run(Init(), ops).nodes| <= Peak(Init(), ops, 0) + 257
  {
    InitInv();
    TableSize(Init());
    SpaceBound(Init(), ops, 0);
  }

  // ---- the kernel's references ----

  ghost function LookupsOf(s: NameState, i: nat): nat {
    if i < |s.nodes| then s.nodes[i].nlookup else 0
  }

  /** References to inode `i` that the kernel gets with the replies to one request: one for
      each entry it is sent. */
  ghost function Granted(replies: seq<Reply>, i: nat): nat {
    multiset(replies)[Entry(i)]
  }

  /** References that a request gives back. */
  ghost function Returned(op: Op, i: nat): nat {
    if op.Forget? && op.ino == i then op.count else 0
  }

  lemma MakingLookups(s: NameState, parent: nat, name: string, kind: Kind, i: nat)
    requires NameInv(s) && Closed(s) && IsDirectory(s.nodes, parent) && s.nodes[parent].nlink > 0
    ensures LookupsOf(AddNew(s, parent, name, kind).0, i)
            == LookupsOf(s, i) + Granted(AddNew(s, parent, name, kind).1, i)
  {
    NextInodeUnused(s);
  }

  /** One request changes the lookup count of an inode by exactly what the kernel was given
      and gave back. */
  lemma StepLookups(s: NameState, op: Op, i: nat)
    requires NameInv(s) && Closed(s) && KernelAllows(s, op)
    ensures LookupsOf(Step(s, op).0, i) + Returned(op, i) == LookupsOf(s, i) + Granted(Step(s, op).1, i)
  {
    if Makes(s, op) {
      MakesAddNew(s, op);
      MakingLookups(s, op.parent, op.name, NewKind(op), i);
    } else {
      match op
      case Rmdir(parent, name) => RmdirLookups(s, parent, name, i);
      case Rename(parent, name, newparent, newname) => RenameLookups(s, parent, name, newparent, newname, i);
      case Link(ino, newparent, newname) => LinkLookups(s, ino, newparent, newname, i);
      case _ => CounterLookups(s, op, i);
    }
  }

  /** Lookups, forgets, unlinks, and requests that fail to make anything. */
  lemma CounterLookups(s: NameState, op: Op, i: nat)
    requires Closed(s) && KernelAllows(s, op) && !Makes(s, op)
    requires !op.Rmdir? && !op.Rename? && !op.Link?
    ensures LookupsOf(Step(s, op).0, i) + Returned(op, i) == LookupsOf(s, i) + Granted(Step(s, op).1, i)
  {
  }

  lemma RmdirLookups(s: NameState, parent: nat, name: string, i: nat)
    requires Closed(s)
    ensures LookupsOf(FuseRmdir(s, parent, name).0, i) == LookupsOf(s, i)
    ensures Granted(FuseRmdir(s, parent, name).1, i) == 0
  {
  }

  lemma RenameLookups(s: NameState, parent: nat, name: string, newparent: nat, newname: string, i: nat)
    requires Closed(s)
    ensures LookupsOf(FuseRename(s, parent, name, newparent, newname).0, i) == LookupsOf(s, i)
    ensures Granted(FuseRename(s, parent, name, newparent, newname).1, i) == 0
  {
  }

  lemma LinkLookups(s: NameState, ino: nat, newparent: nat, newname: string, i: nat)
    requires Closed(s)
    ensures LookupsOf(FuseLink(s, ino, newparent, newname).0, i)
            == LookupsOf(s, i) + Granted(FuseLink(s, ino, newparent, newname).1, i)
  {
  }

  ghost function AllGranted(s: NameState, ops: seq<Op>, i: nat): nat
    requires Closed(s) && Legal(s, ops)
    decreases |ops|
  {
    if ops == [] then 0 else Granted(Step(s, ops[0]).1, i) + AllGranted(Step(s, ops[0]).0, ops[1..], i)
  }

  function AllReturned(ops: seq<Op>, i: nat): nat
    decreases |ops|
  {
    if ops == [] then 0
    else (if ops[0].Forget? && ops[0].ino == i then ops[0].count else 0) + AllReturned(ops[1..], i)
  }

  /** Over every run, and across any reuse of the number, the lookup count of inode `i` is
      what the kernel has been given in replies minus what it has given back. */
  lemma {:induction false} LookupsBalance(s: NameState, ops: seq<Op>, i: nat)
    requires NameInv(s) && Closed(s) && Legal(s, ops)
    ensures LookupsOf(Run(s, ops), i) + AllReturned(ops, i) == LookupsOf(s, i) + AllGranted(s, ops, i)
    decreases |ops|
  {
    if ops != [] {
      StepInv(s, ops[0]);
      StepLookups(s, ops[0], i);
      LookupsBalance(Step(s, ops[0]).0, ops[1..], i);
    }
  }

  /** From mounting: what the kernel holds of an inode is what it was given minus what it gave back. */
  lemma LookupsFromInit(ops: seq<Op>, i: nat)
    requires Legal(Init(), ops)
    ensures LookupsOf(Run(Init(), ops), i) == AllGranted(Init(), ops, i) - AllReturned(ops, i)
  {
    InitInv();
    LookupsBalance(Init(), ops, i);
  }

  // ---- the deletion mark ----

  /** Whatever has lost its last link is marked as deleted. */
  ghost predicate MarkedWhenUnlinked(nodes: seq<Node>) {
    forall i :: 1 <= i < |nodes| && nodes[i].nlink == 0 ==> nodes[i].marked
  }

  lemma StepMarks(s: NameState, op: Op)
    requires NameInv(s) && Closed(s) && KernelAllows(s, op) && MarkedWhenUnlinked(s.nodes)
    ensures MarkedWhenUnlinked(Step(s, op).0.nodes)
  {
    if Makes(s, op) {
      MakesAddNew(s, op);
      MakingMarks(s, op.parent, op.name, NewKind(op));
    } else {
      match op
      case Rmdir(parent, name) => RmdirMarks(s, parent, name);
      case Rename(parent, name, newparent, newname) => RenameMarks(s, parent, name, newparent, newname);
      case _ =>
    }
  }

  lemma MakingMarks(s: NameState, parent: nat, name: string, kind: Kind)
    requires Closed(s) && IsDirectory(s.nodes, parent) && MarkedWhenUnlinked(s.nodes)
    ensures MarkedWhenUnlinked(AddNew(s, parent, name, kind).0.nodes)
  {
    assert MarkedWhenUnlinked(RegisterINode(s, kind, if kind == Directory then 2 else 1).nodes);
  }

  lemma RmdirMarks(s: NameState, parent: nat, name: string)
    requires Closed(s) && MarkedWhenUnlinked(s.nodes)
    ensures MarkedWhenUnlinked(FuseRmdir(s, parent, name).0.nodes)
  {
  }

  lemma RenameMarks(s: NameState, parent: nat, name: string, newparent: nat, newname: string)
    requires Closed(s) && MarkedWhenUnlinked(s.nodes)
    ensures MarkedWhenUnlinked(FuseRename(s, parent, name, newparent, newname).0.nodes)
  {
  }

  /** A rename within a directory that takes a directory's place there takes a link from it
      before it gives one back: the last one, if it has one. */
  predicate Dips(s: NameState, op: Op, i: nat)
    requires Closed(s) && i < |s.nodes|
  {
    && op.Rename? && FuseRename(s, op.parent, op.name, op.newparent, op.newname).1 == [Success]
    && op.parent == op.newparent == i && s.nodes[i].nlink == 1
    && ReplacesDirectory(s, op.newparent, op.newname)
  }

  /** An inode gets the mark precisely when it loses its last link, and keeps it until its
      number is reused. */
  lemma StepMarksIff(s: NameState, op: Op, i: nat)
    requires NameInv(s) && Closed(s) && KernelAllows(s, op) && i < |s.nodes|
    requires i < |Step(s, op).0.nodes|
    ensures Step(s, op).0.nodes[i].marked <==>
              && !(Makes(s, op) && i == NextInode(s))
              && (|| s.nodes[i].marked
                  || (s.nodes[i].nlink > 0 && Step(s, op).0.nodes[i].nlink == 0)
                  || Dips(s, op, i))
  {
    if Makes(s, op) {
      NextInodeUnused(s);
      MakesAddNew(s, op);
      MakingKeepsMarks(s, op.parent, op.name, NewKind(op), i);
    } else {
      match op
      case Rmdir(parent, name) => RmdirMarksIff(s, parent, name, i);
      case Rename(parent, name, newparent, newname) => RenameMarksIff(s, op, i);
      case _ => OtherMarksIff(s, op, i);
    }
  }

  lemma MakingKeepsMarks(s: NameState, parent: nat, name: string, kind: Kind, i: nat)
    requires Closed(s) && IsDirectory(s.nodes, parent) && i < |s.nodes| && parent != NextInode(s)
    ensures var after := AddNew(s, parent, name, kind).0.nodes[i];
            if i == NextInode(s) then !after.marked && after.nlink > 0
            else after.marked == s.nodes[i].marked && after.nlink >= s.nodes[i].nlink
  {
  }

  lemma RmdirMarksIff(s: NameState, parent: nat, name: string, i: nat)
    requires NameInv(s) && Closed(s) && i < |s.nodes|
    ensures var after := FuseRmdir(s, parent, name).0.nodes[i];
            after.marked <==> s.nodes[i].marked || (s.nodes[i].nlink > 0 && after.nlink == 0)
  {
    if parent < |s.nodes| && name in s.nodes[parent].children { NamedHasLink(s.nodes, parent, name); }
  }

  /** Lookups, forgets, unlinks, links, and requests that fail to make anything. */
  lemma OtherMarksIff(s: NameState, op: Op, i: nat)
    requires Closed(s) && KernelAllows(s, op) && i < |s.nodes|
    requires !Makes(s, op) && !op.Rmdir? && !op.Rename?
    ensures i < |Step(s, op).0.nodes|
    ensures var after := Step(s, op).0.nodes[i];
            after.marked <==> s.nodes[i].marked || (s.nodes[i].nlink > 0 && after.nlink == 0)
  {
  }

  lemma RenameMarksIff(s: NameState, op: Op, i: nat)
    requires Closed(s) && i < |s.nodes| && op.Rename?
    ensures var after := FuseRename(s, op.parent, op.name, op.newparent, op.newname).0.nodes[i];
            after.marked <==> s.nodes[i].marked || (s.nodes[i].nlink > 0 && after.nlink == 0) || Dips(s, op, i)
  {
  }

  lemma {:induction false} MarksAlways(s: NameState, ops: seq<Op>)
    requires NameInv(s) && Closed(s) && Legal(s, ops) && MarkedWhenUnlinked(s.nodes)
    ensures MarkedWhenUnlinked(Run(s, ops).nodes)
    decreases |ops|
  {
    if ops != [] {
      StepInv(s, ops[0]);
      StepMarks(s, ops[0]);
      MarksAlways(Step(s, ops[0]).0, ops[1..]);
    }
  }

  /** In every reachable state an inode without links is marked as deleted. */
  lemma MarksFromInit(ops: seq<Op>)
    requires Legal(Init(), ops)
    ensures MarkedWhenUnlinked(Run(Init(), ops).nodes)
  {
    InitInv();
    MarksAlways(Init(), ops);
  }
}
