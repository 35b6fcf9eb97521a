/** A run after which peers with equal trees number the next inode differently: the kernel of
    one peer has forgotten 257 deleted files, those of the others have not. */
module ReplicaLimits {
  import opened NameSpace
  import opened Reclamation
  import opened PathNames
  import opened Wire
  import opened Replication
  import opened Misread

  function EmptyPaths(n: nat): seq<string> { MOUNTED_PATHS + seq(n, _ => "") }

  lemma MorePaths(n: nat)
    ensures EmptyPaths(n) + [""] == EmptyPaths(n + 1)
  {
  }

  /** Nothing to read behind a packet; these paths are short. */
  function Nothings(p: nat): seq<string> { seq(p, _ => "") }

  function Peer(k: nat, j: nat): Replica { Replica(Churned(k, j), EmptyPaths(k), {}, true) }

  function PeerWithFile(k: nat): Replica { Replica(WithFile(k), EmptyPaths(k + 1), {}, true) }

  // ---- all peers create and delete ----

  /** Paths that leave room for a terminator. */
  predicate Short(paths: (string, string)) { |paths.0| < PATH_FIELD && |paths.1| < PATH_FIELD }

  /** The same request on peers that are all in the same state. */
  lemma UniformIssue(p: nat, r: Replica, op: Op)
    requires p > 0 && Whole(r) && Repeatable(r, op) && Short(PathsOf(r, op)) && Agree(seq(p, _ => r))
    ensures AllWhole(seq(p, _ => r)) && LegalEvent(seq(p, _ => r), Issued(0, op, Nothings(p)))
    ensures Happen(seq(p, _ => r), Issued(0, op, Nothings(p))) == seq(p, _ => StepOf(r, op))
    ensures Agree(seq(p, _ => StepOf(r, op)))
  {
    var reps := seq(p, _ => r);
    assert reps[0] == r;
    assert LegalIssue(reps, 0, op, Nothings(p));
    forall d: nat | d < p ensures Issue(reps, 0, op, Nothings(p))[d] == StepOf(r, op) {
      EveryoneSteps(reps, 0, op, Nothings(p), d);
    }
    assert Issue(reps, 0, op, Nothings(p)) == seq(p, _ => StepOf(r, op));
    IssueAgrees(reps, 0, op, Nothings(p));
  }

  lemma CreateRepeatable(k: nat)
    ensures Whole(Peer(k, 0)) && Repeatable(Peer(k, 0), Create(1, "f"))
    ensures Short(PathsOf(Peer(k, 0), Create(1, "f")))
    ensures StepOf(Peer(k, 0), Create(1, "f")) == PeerWithFile(k)
  {
    CreateOne(k);
    MorePaths(k);
  }

  lemma DeleteRepeatable(k: nat)
    ensures Whole(PeerWithFile(k)) && Repeatable(PeerWithFile(k), Unlink(1, "f"))
    ensures Short(PathsOf(PeerWithFile(k), Unlink(1, "f")))
    ensures StepOf(PeerWithFile(k), Unlink(1, "f")) == Peer(k + 1, 0)
  {
    DeleteOne(k);
  }

  /** A run extended by one event. */
  lemma {:induction false} OneMoreEvent(reps: seq<Replica>, events: seq<Event>, e: Event)
    requires AllWhole(reps) && LegalEvents(reps, events) && LegalEvent(AfterEvents(reps, events), e)
    ensures LegalEvents(reps, events + [e])
    ensures AfterEvents(reps, events + [e]) == Happen(AfterEvents(reps, events), e)
    decreases |events|
  {
    if events == [] {
      assert [] + [e] == [e] && [e][1..] == [];
    } else {
      assert (events + [e])[1..] == events[1..] + [e];
      OneMoreEvent(Happen(reps, events[0]), events[1..], e);
    }
  }

  /** The events lead from mounting to peers that are all in state `r`. */
  ghost predicate LeadTo(p: nat, events: seq<Event>, r: Replica) {
    && AllWhole(MountedEverywhere(p)) && LegalEvents(MountedEverywhere(p), events)
    && AfterEvents(MountedEverywhere(p), events) == seq(p, _ => r)
    && Agree(seq(p, _ => r))
  }

  lemma OneMoreForAll(p: nat, events: seq<Event>, r: Replica, op: Op)
    requires p > 0 && LeadTo(p, events, r) && Whole(r) && Repeatable(r, op) && Short(PathsOf(r, op))
    ensures LeadTo(p, events + [Issued(0, op, Nothings(p))], StepOf(r, op))
  {
    UniformIssue(p, r, op);
    OneMoreEvent(MountedEverywhere(p), events, Issued(0, op, Nothings(p)));
  }

  lemma {:induction false} Churn(p: nat, k: nat) returns (events: seq<Event>)
    requires p > 0
    ensures LeadTo(p, events, Peer(k, 0))
  {
    MountedAgree(p);
    if k == 0 {
      events := [];
      assert Peer(0, 0) == Replica(Init(), MOUNTED_PATHS, {}, true);
    } else {
      events := Churn(p, k - 1);
      CreateRepeatable(k - 1);
      OneMoreForAll(p, events, Peer(k - 1, 0), Create(1, "f"));
      events := events + [Issued(0, Create(1, "f"), Nothings(p))];
      DeleteRepeatable(k - 1);
      OneMoreForAll(p, events, PeerWithFile(k - 1), Unlink(1, "f"));
      events := events + [Issued(0, Unlink(1, "f"), Nothings(p))];
    }
  }

  // ---- peer 0 forgets ----

  function Mixed(p: nat, k: nat, j: nat): seq<Replica> {
    seq(p, d requires 0 <= d < p => if d == 0 then Peer(k, j) else Peer(k, 0))
  }

  lemma ForgetEvent(p: nat, k: nat, j: nat)
    requires p > 0 && j < k && AllWhole(Mixed(p, k, j))
    ensures LegalEvent(Mixed(p, k, j), Local(0, Forget(2 + j, 1)))
    ensures Happen(Mixed(p, k, j), Local(0, Forget(2 + j, 1))) == Mixed(p, k, j + 1)
  {
    ForgetOne(k, j);
    assert Mixed(p, k, j)[0] == Peer(k, j);
    assert Handle(Peer(k, j), Forget(2 + j, 1)).0 == Peer(k, j + 1);
    assert Mixed(p, k, j)[0 := Peer(k, j + 1)] == Mixed(p, k, j + 1);
  }

  lemma {:induction false} ForgetAll(p: nat, k: nat, j: nat) returns (events: seq<Event>)
    requires p > 0 && j <= k
    ensures AllWhole(MountedEverywhere(p)) && LegalEvents(MountedEverywhere(p), events)
    ensures AfterEvents(MountedEverywhere(p), events) == Mixed(p, k, j)
    decreases j
  {
    if j == 0 {
      events := Churn(p, k);
      assert Mixed(p, k, 0) == seq(p, _ => Peer(k, 0));
    } else {
      events := ForgetAll(p, k, j - 1);
      ForgetEvent(p, k, j - 1);
      OneMoreEvent(MountedEverywhere(p), events, Local(0, Forget(2 + j - 1, 1)));
      events := events + [Local(0, Forget(2 + j - 1, 1))];
    }
  }

  /** In a legal run two peers come to agree on the tree and differ in the number of the next
      inode: a new file then gets inode 2 on peer 0 and inode 259 on all others. */
  lemma ReclaimingDiverges(p: nat, behind: seq<string>) returns (events: seq<Event>)
    requires p >= 2 && |behind| == p
    ensures AllWhole(MountedEverywhere(p)) && LegalEvents(MountedEverywhere(p), events)
    ensures var reps := AfterEvents(MountedEverywhere(p), events);
            && Agree(reps)
            && NextInode(reps[0].names) == 2 && NextInode(reps[1].names) == 259
            && Replicated(Create(1, "f")) && Tells(reps[0], Create(1, "f"))
            && InField(PathsOf(reps[0], Create(1, "f")))
            && !Agree(Issue(reps, 0, Create(1, "f"), behind))
  {
    events := ForgetAll(p, MANY, MANY);
    MountedAgree(p);
    ReplicasAgree(MountedEverywhere(p), events);
    DivergesNow(p, behind);
  }

  lemma DivergesNow(p: nat, behind: seq<string>)
    requires p >= 2 && |behind| == p && Agree(Mixed(p, MANY, MANY)) && AllWhole(Mixed(p, MANY, MANY))
    ensures var reps := Mixed(p, MANY, MANY);
            && NextInode(reps[0].names) == 2 && NextInode(reps[1].names) == 259
            && Tells(reps[0], Create(1, "f")) && InField(PathsOf(reps[0], Create(1, "f")))
            && !Agree(Issue(reps, 0, Create(1, "f"), behind))
  {
    var reps := Mixed(p, MANY, MANY);
    assert Queue(MANY)[0] == 2 && Queue(0) == [];
    assert reps[0] == Peer(MANY, MANY) && reps[1] == Peer(MANY, 0);
    IssueAgreesIff(reps, 0, Create(1, "f"), behind);
  }
}
