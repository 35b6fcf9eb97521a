/** When inode numbers are reused: the reclaiming mode over whole runs. */
module Reclamation {
  import opened NameSpace
  import opened NameSafety
  import opened NameRuns

  // ---- the mode ----

  /** Something is made while no number is queued: the one occasion at which the mode ends. */
  predicate Dry(s: NameState, op: Op)
    requires Closed(s)
  {
    s.queue == [] && Makes(s, op)
  }

  /** Nothing is made on an empty queue throughout the run. */
  ghost predicate NeverDry(s: NameState, ops: seq<Op>)
    requires Closed(s) && Legal(s, ops)
    decreases |ops|
  {
    ops == [] || (!Dry(s, ops[0]) && NeverDry(Step(s, ops[0]).0, ops[1..]))
  }

  /** At some moment of the run more than 256 numbers are queued, and from then to its end
      nothing is made on an empty queue. */
  ghost predicate FilledSince(s: NameState, ops: seq<Op>)
    requires Closed(s) && Legal(s, ops)
    decreases |ops|
  {
    || (|s.queue| > RECLAMATION_THRESHOLD && NeverDry(s, ops))
    || (ops != [] && FilledSince(Step(s, ops[0]).0, ops[1..]))
  }

  /** One request: the mode begins with a queue that is longer than 256, and ends only when
      something is made on an empty one. */
  lemma StepMode(s: NameState, op: Op)
    requires NameInv(s) && Closed(s) && KernelAllows(s, op)
    ensures var after := Step(s, op).0;
            after.reclaiming <==> |after.queue| > RECLAMATION_THRESHOLD || (s.reclaiming && !Dry(s, op))
  {
    StepInv(s, op);
    if Makes(s, op) { MakesAddNew(s, op); }
  }

  /** The mode after a run, from the lengths of the queue alone. */
  lemma {:induction false} ModeIff(s: NameState, ops: seq<Op>)
    requires NameInv(s) && Closed(s) && Legal(s, ops)
    ensures Run(s, ops).reclaiming <==> FilledSince(s, ops) || (s.reclaiming && NeverDry(s, ops))
    decreases |ops|
  {
    if ops != [] {
      StepMode(s, ops[0]);
      StepInv(s, ops[0]);
      ModeIff(Step(s, ops[0]).0, ops[1..]);
    }
  }

  /** From mounting: the next inode gets the oldest queued number precisely when there is one
      and more than 256 have been queued since the last creation that found none; otherwise the
      table grows. */
  lemma ReuseIffFromInit(ops: seq<Op>)
    requires Legal(Init(), ops)
    ensures var s := Run(Init(), ops);
            NextInode(s) == if s.queue != [] && FilledSince(Init(), ops) then s.queue[0] else |s.nodes|
  {
    InitInv();
    ModeIff(Init(), ops);
  }

  // ---- what is made while the mode lasts ----

  /** How many requests of the run make something. */
  ghost function Creations(s: NameState, ops: seq<Op>): nat
    requires Closed(s) && Legal(s, ops)
    decreases |ops|
  {
    if ops == [] then 0
    else (if Makes(s, ops[0]) then 1 else 0) + Creations(Step(s, ops[0]).0, ops[1..])
  }

  /** The numbers that the allocator hands out during the run. */
  ghost function NumbersGiven(s: NameState, ops: seq<Op>): seq<nat>
    requires Closed(s) && Legal(s, ops)
    decreases |ops|
  {
    if ops == [] then []
    else (if Makes(s, ops[0]) then [NextInode(s)] else []) + NumbersGiven(Step(s, ops[0]).0, ops[1..])
  }

  /** Deletions meanwhile only make the queue longer at its end. */
  lemma StepDrains(s: NameState, op: Op)
    requires NameInv(s) && Closed(s) && KernelAllows(s, op) && s.reclaiming && !Dry(s, op)
    ensures var after := Step(s, op).0;
            && after.reclaiming && |after.nodes| == |s.nodes|
            && (if Makes(s, op) then NextInode(s) == s.queue[0] && after.queue == s.queue[1..]
                else s.queue <= after.queue)
  {
    StepMode(s, op);
    TableGrowth(s, op);
    if Makes(s, op) { MakesAddNew(s, op); }
  }

  lemma FrontTaken(q: seq<nat>, n: nat, end: seq<nat>)
    requires n < |q| && q[1..][n..] <= end
    ensures [q[0]] + q[1..][..n] == q[..n + 1] && q[n + 1..] <= end
  {
    assert q[1..][n..] == q[n + 1..];
  }

  lemma FrontKept(q: seq<nat>, longer: seq<nat>, n: nat, end: seq<nat>)
    requires q <= longer && n <= |q| && longer[n..] <= end
    ensures longer[..n] == q[..n] && q[n..] <= end
  {
    assert q[n..] <= longer[n..];
  }

  /** Hysteresis: once the mode is on, as many inodes as there are numbers queued get exactly
      these numbers, in their order, and the table does not grow. */
  lemma {:induction false} DrainsInOrder(s: NameState, ops: seq<Op>)
    requires NameInv(s) && Closed(s) && Legal(s, ops) && s.reclaiming && Creations(s, ops) <= |s.queue|
    ensures NumbersGiven(s, ops) == s.queue[..Creations(s, ops)]
    ensures |Run(s, ops).nodes| == |s.nodes| && Run(s, ops).reclaiming
    ensures s.queue[Creations(s, ops)..] <= Run(s, ops).queue
    decreases |ops|
  {
    if ops != [] {
      var after, rest := Step(s, ops[0]).0, ops[1..];
      StepDrains(s, ops[0]);
      StepInv(s, ops[0]);
      DrainsInOrder(after, rest);
      var n, end := Creations(after, rest), Run(after, rest).queue;
      if Makes(s, ops[0]) { FrontTaken(s.queue, n, end); } else { FrontKept(s.queue, after.queue, n, end); }
    }
  }

  /** And as long as no creation finds the queue empty, the table does not grow at all. */
  lemma {:induction false} DrainsWhileQueued(s: NameState, ops: seq<Op>)
    requires NameInv(s) && Closed(s) && Legal(s, ops) && s.reclaiming && NeverDry(s, ops)
    ensures NumbersGiven(s, ops) == AllReused(s, ops) && |Run(s, ops).nodes| == |s.nodes|
    decreases |ops|
  {
    if ops != [] {
      StepDrains(s, ops[0]);
      StepInv(s, ops[0]);
      DrainsWhileQueued(Step(s, ops[0]).0, ops[1..]);
    }
  }

  /** From mounting: once more than 256 numbers are queued, whatever is made next takes them one
      by one, from the oldest on, and the table stays as long as it is until none is left. */
  lemma DrainsFromInit(ops: seq<Op>, more: seq<Op>)
    requires Legal(Init(), ops) && Legal(Run(Init(), ops), more)
    requires var s := Run(Init(), ops);
             |s.queue| > RECLAMATION_THRESHOLD && Creations(s, more) <= |s.queue|
    ensures var s := Run(Init(), ops);
            && NumbersGiven(s, more) == s.queue[..Creations(s, more)]
            && |Run(s, more).nodes| == |s.nodes|
  {
    InitInv();
    RunInv(Init(), ops);
    DrainsInOrder(Run(Init(), ops), more);
  }

  /** Never more than 256 numbers queued. */
  ghost predicate NeverFull(s: NameState, ops: seq<Op>)
    requires Closed(s) && Legal(s, ops)
    decreases |ops|
  {
    |s.queue| <= RECLAMATION_THRESHOLD && (ops == [] || NeverFull(Step(s, ops[0]).0, ops[1..]))
  }

  /** One number after the other, from `first` on. */
  ghost predicate CountsUp(numbers: seq<nat>, first: nat) {
    forall k :: 0 <= k < |numbers| ==> numbers[k] == first + k
  }

  lemma CountsUpCons(first: nat, rest: seq<nat>)
    requires CountsUp(rest, first + 1)
    ensures CountsUp([first] + rest, first)
  {
  }

  lemma StepGrows(s: NameState, op: Op)
    requires NameInv(s) && Closed(s) && KernelAllows(s, op) && !s.reclaiming
    requires |Step(s, op).0.queue| <= RECLAMATION_THRESHOLD
    ensures !Step(s, op).0.reclaiming && Reuses(s, op) == [] && NextInode(s) == |s.nodes|
    ensures |Step(s, op).0.nodes| == |s.nodes| + (if Makes(s, op) then 1 else 0)
  {
    StepMode(s, op);
    TableGrowth(s, op);
  }

  lemma {:induction false} NumbersCountUp(s: NameState, ops: seq<Op>)
    requires NameInv(s) && Closed(s) && Legal(s, ops) && !s.reclaiming && NeverFull(s, ops)
    ensures |NumbersGiven(s, ops)| == Creations(s, ops) && CountsUp(NumbersGiven(s, ops), |s.nodes|)
    decreases |ops|
  {
    if ops != [] {
      var after, rest := Step(s, ops[0]).0, ops[1..];
      StepGrows(s, ops[0]);
      StepInv(s, ops[0]);
      NumbersCountUp(after, rest);
      if Makes(s, ops[0]) {
        CountsUpCons(|s.nodes|, NumbersGiven(after, rest));
      } else {
        assert NumbersGiven(s, ops) == NumbersGiven(after, rest);
      }
    }
  }

  /** With the mode off, nothing is reused until more than 256 numbers have been queued: every
      new inode gets the next number at the end of the table. */
  lemma {:induction false} NoReuseBefore(s: NameState, ops: seq<Op>)
    requires NameInv(s) && Closed(s) && Legal(s, ops) && !s.reclaiming && NeverFull(s, ops)
    ensures AllReused(s, ops) == [] && !Run(s, ops).reclaiming
    ensures |Run(s, ops).nodes| == |s.nodes| + Creations(s, ops)
    ensures |NumbersGiven(s, ops)| == Creations(s, ops) && CountsUp(NumbersGiven(s, ops), |s.nodes|)
    decreases |ops|
  {
    NumbersCountUp(s, ops);
    if ops != [] {
      StepGrows(s, ops[0]);
      StepInv(s, ops[0]);
      NoReuseBefore(Step(s, ops[0]).0, ops[1..]);
    }
  }

  // ---- a number reused with nothing else queued ----

  const MANY: nat := RECLAMATION_THRESHOLD + 1

  /** A deleted file with as many lookups as its kernel still holds. */
  function Gone(i: nat, held: nat): Node { Node(i, Regular, 0, held, true, map[]) }

  /** The table after `k` files have been created and deleted, the first `j` of them forgotten. */
  function Table(k: nat, j: nat, root: map<string, nat>): (t: seq<Node>)
    ensures |t| == 2 + k && t[0] == FreshNode(0, Special, 0) && t[1] == Node(1, Directory, 3, 0, false, root)
    ensures forall i :: 2 <= i < |t| ==> t[i] == Gone(i, if i - 2 < j then 0 else 1)
  {
    [FreshNode(0, Special, 0), Node(1, Directory, 3, 0, false, root)]
    + seq(k, i requires 0 <= i < k => Gone(2 + i, if i < j then 0 else 1))
  }

  function Queue(j: nat): (q: seq<nat>)
    ensures |q| == j && forall i :: 0 <= i < j ==> q[i] == 2 + i
  {
    seq(j, i requires 0 <= i < j => 2 + i)
  }

  function Churned(k: nat, j: nat): NameState {
    NameState(Table(k, j, map[]), Queue(j), j >= MANY)
  }

  /** One more file, still there. */
  function WithFile(k: nat): NameState {
    NameState(Table(k, 0, map["f" := 2 + k]) + [Node(2 + k, Regular, 1, 1, false, map[])], [], false)
  }

  lemma StatesClosed(k: nat, j: nat)
    requires j <= k
    ensures Closed(Churned(k, j)) && Closed(WithFile(k))
  {
  }

  lemma CreateOne(k: nat)
    ensures Closed(Churned(k, 0)) && Closed(WithFile(k))
    ensures Step(Churned(k, 0), Create(1, "f")).0 == WithFile(k)
    ensures Makes(Churned(k, 0), Create(1, "f")) && NextInode(Churned(k, 0)) == 2 + k
  {
    var s := Churned(k, 0);
    StatesClosed(k, 0);
    assert Queue(0) == [];
    assert map[]["f" := 2 + k] == map["f" := 2 + k];
    var after := Step(s, Create(1, "f")).0.nodes;
    assert after == WithFile(k).nodes;
  }

  lemma DeleteOne(k: nat)
    ensures Closed(WithFile(k)) && Closed(Churned(k + 1, 0))
    ensures Step(WithFile(k), Unlink(1, "f")).0 == Churned(k + 1, 0)
    ensures Step(WithFile(k), Unlink(1, "f")).1 == [Success]
  {
    StatesClosed(k, 0);
    StatesClosed(k + 1, 0);
    assert Queue(0) == [];
    assert map["f" := 2 + k] - {"f"} == map[];
    var after := Step(WithFile(k), Unlink(1, "f")).0.nodes;
    assert after == Churned(k + 1, 0).nodes;
  }

  lemma ForgetOne(k: nat, j: nat)
    requires j < k
    ensures Closed(Churned(k, j)) && 2 + j < |Churned(k, j).nodes|
    ensures KernelAllows(Churned(k, j), Forget(2 + j, 1))
    ensures Step(Churned(k, j), Forget(2 + j, 1)).0 == Churned(k, j + 1)
  {
    StatesClosed(k, j);
    var after := Step(Churned(k, j), Forget(2 + j, 1)).0;
    assert after.nodes == Churned(k, j + 1).nodes;
    assert Queue(j) + [2 + j] == Queue(j + 1);
  }

  /** The table with 257 deleted files, the first `r` of them held by the kernel. */
  function Slots(r: nat, root: map<string, nat>): (t: seq<Node>)
    ensures |t| == 2 + MANY && t[0] == FreshNode(0, Special, 0) && t[1] == Node(1, Directory, 3, 0, false, root)
    ensures forall i :: 2 <= i < |t| ==> t[i] == Gone(i, if i - 2 < r then 1 else 0)
  {
    [FreshNode(0, Special, 0), Node(1, Directory, 3, 0, false, root)]
    + seq(MANY, i requires 0 <= i < MANY => Gone(2 + i, if i < r then 1 else 0))
  }

  /** The first `r` of the queued numbers have been reused and their files unlinked again. */
  function Drained(r: nat): NameState
    requires r <= MANY
  {
    NameState(Slots(r, map[]), Queue(MANY)[r..], true)
  }

  /** One more has been reused, for a file that is still there. */
  function Reused(r: nat): NameState
    requires r < MANY
  {
    NameState(Slots(r, map["f" := 2 + r])[2 + r := Node(2 + r, Regular, 1, 1, false, map[])],
              Queue(MANY)[r + 1..], true)
  }

  lemma DrainedClosed(r: nat)
    requires r <= MANY
    ensures Closed(Drained(r)) && (r < MANY ==> Closed(Reused(r)))
  {
  }

  lemma ReuseOne(r: nat)
    requires r < MANY
    ensures Closed(Drained(r)) && Closed(Reused(r)) && KernelAllows(Drained(r), Create(1, "f"))
    ensures Step(Drained(r), Create(1, "f")).0 == Reused(r)
  {
    DrainedClosed(r);
    assert Drained(r).queue[0] == 2 + r && Drained(r).queue[1..] == Reused(r).queue;
    assert map[]["f" := 2 + r] == map["f" := 2 + r];
    var after := Step(Drained(r), Create(1, "f")).0.nodes;
    assert after == Reused(r).nodes;
  }

  lemma UnlinkOne(r: nat)
    requires r < MANY
    ensures Closed(Reused(r)) && Closed(Drained(r + 1)) && KernelAllows(Reused(r), Unlink(1, "f"))
    ensures Step(Reused(r), Unlink(1, "f")).0 == Drained(r + 1)
  {
    DrainedClosed(r);
    DrainedClosed(r + 1);
    assert map["f" := 2 + r] - {"f"} == map[];
    var after := Step(Reused(r), Unlink(1, "f")).0.nodes;
    assert after == Drained(r + 1).nodes;
  }

  /** The requests lead from `s` to `end` by the kernel's rules. */
  ghost predicate Leads(s: NameState, ops: seq<Op>, end: NameState)
    requires Closed(s)
  {
    Legal(s, ops) && Run(s, ops) == end
  }

  lemma {:induction false} OneMore(s: NameState, ops: seq<Op>, middle: NameState, op: Op, end: NameState)
    requires Closed(s) && Closed(middle) && Leads(s, ops, middle)
    requires KernelAllows(middle, op) && Step(middle, op).0 == end
    ensures Leads(s, ops + [op], end)
    decreases |ops|
  {
    if ops == [] {
      assert ([] + [op])[1..] == [];
    } else {
      assert (ops + [op])[1..] == ops[1..] + [op];
      OneMore(Step(s, ops[0]).0, ops[1..], middle, op, end);
    }
  }

  lemma {:induction false} ChurnRun(k: nat) returns (ops: seq<Op>)
    ensures Leads(Init(), ops, Churned(k, 0))
  {
    if k == 0 {
      ops := [];
      assert Churned(0, 0) == Init();
    } else {
      ops := ChurnRun(k - 1);
      CreateOne(k - 1);
      OneMore(Init(), ops, Churned(k - 1, 0), Create(1, "f"), WithFile(k - 1));
      DeleteOne(k - 1);
      OneMore(Init(), ops + [Create(1, "f")], WithFile(k - 1), Unlink(1, "f"), Churned(k, 0));
      ops := ops + [Create(1, "f")] + [Unlink(1, "f")];
    }
  }

  lemma {:induction false} ForgetRun(k: nat, j: nat) returns (ops: seq<Op>)
    requires j <= k
    ensures Leads(Init(), ops, Churned(k, j))
    decreases j
  {
    if j == 0 {
      ops := ChurnRun(k);
    } else {
      ops := ForgetRun(k, j - 1);
      ForgetOne(k, j - 1);
      StatesClosed(k, j - 1);
      OneMore(Init(), ops, Churned(k, j - 1), Forget(2 + j - 1, 1), Churned(k, j));
      ops := ops + [Forget(2 + j - 1, 1)];
    }
  }

  lemma {:induction false} DrainRun(r: nat) returns (ops: seq<Op>)
    requires r <= MANY
    ensures Leads(Init(), ops, Drained(r))
  {
    if r == 0 {
      ops := ForgetRun(MANY, MANY);
      assert Queue(MANY)[0..] == Queue(MANY);
      assert Drained(0).nodes == Churned(MANY, MANY).nodes;
    } else {
      ops := DrainRun(r - 1);
      ReuseOne(r - 1);
      OneMore(Init(), ops, Drained(r - 1), Create(1, "f"), Reused(r - 1));
      UnlinkOne(r - 1);
      OneMore(Init(), ops + [Create(1, "f")], Reused(r - 1), Unlink(1, "f"), Drained(r));
      ops := ops + [Create(1, "f")] + [Unlink(1, "f")];
    }
  }

  lemma LastForget()
    ensures var s := Drained(MANY);
            && Closed(s) && s.queue == [] && KernelAllows(s, Forget(2, 1))
            && Step(s, Forget(2, 1)).0.queue == [2] && NextInode(Step(s, Forget(2, 1)).0) == 2
  {
    DrainedClosed(MANY);
    assert Drained(MANY).nodes[2] == Gone(2, 1);
  }

  /** An empty queue alone does not end the mode: in a legal run, 257 numbers are queued and
      all reused; then one file is forgotten, and the next inode gets its number at once. */
  lemma LoneNumberReused() returns (ops: seq<Op>, last: Op)
    ensures Legal(Init(), ops) && Run(Init(), ops).queue == [] && KernelAllows(Run(Init(), ops), last)
    ensures var after := Step(Run(Init(), ops), last).0;
            after.queue == [2] && NextInode(after) == 2 && |after.nodes| == 259
  {
    ops := DrainRun(MANY);
    last := Forget(2, 1);
    LastForget();
  }
}
