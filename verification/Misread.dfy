/** Paths that fill their field to the last byte: what a receiver reads then, and exactly when
    the peers still agree. */
module Misread {
  import opened NameSpace
  import opened References
  import opened NameSafety
  import opened PathNames
  import opened Wire
  import opened Replication
  import P = PeerProtocol

  // ---- another path is another place ----

  /** Only one path without idle slashes leads to a directory. */
  lemma {:induction false} WalkUnique(nodes: seq<Node>, a: seq<string>, b: seq<string>, i: nat)
    requires TableOk(nodes) && IsDirectory(nodes, i)
    requires Walk(nodes, a) == Found(i) && Walk(nodes, b) == Found(i)
    ensures a == b
    decreases |a|
  {
    assert NodeOk(nodes, 1);
    if a == [] || b == [] {
      if a != [] { WalkedIsNamed(nodes, a, i); }
      if b != [] { WalkedIsNamed(nodes, b, i); }
    } else {
      var d, n := Walk(nodes, a[..|a| - 1]).ino, a[|a| - 1];
      var e, m := Walk(nodes, b[..|b| - 1]).ino, b[|b| - 1];
      NamedHasLink(nodes, d, n);
      assert (e, m) in Refs(nodes, i);
      WalkUnique(nodes, a[..|a| - 1], b[..|b| - 1], d);
      assert a == a[..|a| - 1] + [n] && b == b[..|b| - 1] + [m];
    }
  }

  /** A text with more than slashes behind a path leads to another place than the path. */
  lemma LeadsElsewhere(nodes: seq<Node>, path: string, rest: string, d: nat, name: string)
    requires TableOk(nodes) && Resolve(nodes, Text(path)) == Place(d, name) && !AllSlashes(rest)
    ensures Resolve(nodes, Text(path + rest)) != Place(d, name)
  {
    MoreComponents(path, rest);
    var a, b := Components(path), Components(path + rest);
    assert a == a[..|a| - 1] + [name];
    if Resolve(nodes, Text(path + rest)) == Place(d, name) {
      assert b == b[..|b| - 1] + [name];
      WalkUnique(nodes, a[..|a| - 1], b[..|b| - 1], d);
    }
  }

  lemma SlashesSlash(path: string, rest: string)
    requires rest != "" && AllSlashes(rest)
    ensures Slashed(Text(path + rest))
  {
    assert (path + rest)[|path + rest| - 1] == rest[|rest| - 1];
  }

  // ---- a misread path is another request, or none ----

  /** A text with something behind a path is another request. */
  lemma OtherText(nodes: seq<Node>, op: Op, path: string, rest: string)
    requires TableOk(nodes) && Replicated(op) && !op.Rename?
    requires Resolve(nodes, Text(path)) == Place(op.parent, op.name)
    requires rest != "" && (op.Mkdir? || op.Rmdir? ==> !AllSlashes(rest))
    ensures CallOn(nodes, KindOf(op), Text(path + rest)) != Call(op)
  {
    if AllSlashes(rest) {
      SlashesSlash(path, rest);
    } else {
      LeadsElsewhere(nodes, path, rest, op.parent, op.name);
    }
  }

  lemma OnePathMisread(r: Replica, op: Op, behind: string)
    requires Sane(r) && Whole(r) && Repeatable(r, op) && !op.Rename? && !Arrives(op, PathsOf(r, op), behind)
    ensures var body := BodyOf(op, PathsOf(r, op));
            Readable(body, behind) ==> KernelCall(r.names.nodes, KindOf(op), body, behind) != Call(op)
    ensures Readable(BodyOf(op, PathsOf(r, op)), behind) <==> CString(behind).Text?
  {
    var path := PathsOf(r, op).0;
    var rest := MisreadText(path, behind, op.Mkdir? || op.Rmdir?);
    OneText(r.names.nodes, op, PathsOf(r, op), behind);
    if CString(behind).Text? {
      PathResolves(r, op);
      OtherText(r.names.nodes, op, path, rest);
    }
  }

  lemma PathResolves(r: Replica, op: Op)
    requires Sane(r) && Whole(r) && Repeatable(r, op) && !op.Rename?
    ensures Resolve(r.names.nodes, Text(PathsOf(r, op).0)) == Place(op.parent, op.name)
  {
    OnePath(r, op);
    ResolvesTo(r, op.parent, op.name, PathsOf(r, op).0, "");
    assert PathsOf(r, op).0 + "" == PathsOf(r, op).0;
  }

  /** The second path of a rename holds more than slashes, however it is read. */
  lemma SecondIsNamed(r: Replica, op: Op, behind: string)
    requires Sane(r) && Whole(r) && Repeatable(r, op) && op.Rename?
    requires CString(Encode(PathsOf(r, op).1) + behind).Text?
    ensures !AllSlashes(CString(Encode(PathsOf(r, op).1) + behind).chars)
  {
    var to, rest := PathsOf(r, op).1, CString(Encode(PathsOf(r, op).1) + behind).chars;
    ReceivedAs(to, behind);
    var k := |r.paths[op.newparent]|;
    assert to[k] == op.newname[0];
    assert rest[k] == to[k];
  }

  lemma FirstMisread(r: Replica, op: Op, behind: string)
    requires Sane(r) && Whole(r) && Repeatable(r, op) && op.Rename? && |PathsOf(r, op).0| == PATH_FIELD
    ensures var body := BodyOf(op, PathsOf(r, op));
            Readable(body, behind) ==> KernelCall(r.names.nodes, P.RENAME, body, behind) != Call(op)
  {
    var (from, to) := PathsOf(r, op);
    EntryFacts(r, op.parent, op.name);
    ReceivedAs(from, Encode(to) + behind);
    ResolvesTo(r, op.parent, op.name, from, "");
    assert from + "" == from;
    if CString(Encode(to) + behind).Text? {
      SecondIsNamed(r, op, behind);
      LeadsElsewhere(r.names.nodes, from, CString(Encode(to) + behind).chars, op.parent, op.name);
    }
  }

  /** A rename of a file to a text with something behind the new path is another request. */
  lemma OtherTarget(nodes: seq<Node>, op: Op, from: Text, path: string, rest: string)
    requires TableOk(nodes) && op.Rename? && op.parent < |nodes| && !NamesDirectory(nodes, op.parent, op.name)
    requires Resolve(nodes, Text(path)) == Place(op.newparent, op.newname) && rest != ""
    ensures RenameOn(nodes, from, Text(path + rest)) != Call(op)
  {
    if AllSlashes(rest) {
      SlashesSlash(path, rest);
    } else {
      LeadsElsewhere(nodes, path, rest, op.newparent, op.newname);
    }
  }

  lemma NewPathResolves(r: Replica, op: Op)
    requires Sane(r) && Whole(r) && Repeatable(r, op) && op.Rename?
    ensures Resolve(r.names.nodes, Text(PathsOf(r, op).1)) == Place(op.newparent, op.newname)
    ensures op.parent < |r.names.nodes| && !NamesDirectory(r.names.nodes, op.parent, op.name)
  {
    ResolvesTo(r, op.newparent, op.newname, PathsOf(r, op).1, "");
    assert PathsOf(r, op).1 + "" == PathsOf(r, op).1;
  }

  /** What a rename makes a receiver do depends on the two texts that it reads. */
  lemma TwoTexts(nodes: seq<Node>, op: Op, paths: (string, string), behind: string)
    requires op.Rename? && InField(paths)
    ensures Readable(BodyOf(op, paths), behind) ==> Received(paths.1, behind).Text?
    ensures KernelCall(nodes, P.RENAME, BodyOf(op, paths), behind)
            == RenameOn(nodes, FirstText(BodyOf(op, paths), behind), Received(paths.1, behind))
  {
  }

  lemma SecondMisread(r: Replica, op: Op, behind: string)
    requires Sane(r) && Whole(r) && Repeatable(r, op) && op.Rename? && !Intact(PathsOf(r, op).1, behind, false)
    ensures var body := BodyOf(op, PathsOf(r, op));
            Readable(body, behind) ==> KernelCall(r.names.nodes, P.RENAME, body, behind) != Call(op)
  {
    var paths := PathsOf(r, op);
    var rest := MisreadText(paths.1, behind, false);
    TwoTexts(r.names.nodes, op, paths, behind);
    if CString(behind).Text? {
      NewPathResolves(r, op);
      OtherTarget(r.names.nodes, op, FirstText(BodyOf(op, paths), behind), paths.1, rest);
    }
  }

  lemma MisreadCall(r: Replica, op: Op, behind: string)
    requires Sane(r) && Whole(r) && Repeatable(r, op) && !Arrives(op, PathsOf(r, op), behind)
    ensures var body := BodyOf(op, PathsOf(r, op));
            Readable(body, behind) ==> KernelCall(r.names.nodes, KindOf(op), body, behind) != Call(op)
  {
    if !op.Rename? {
      OnePathMisread(r, op, behind);
    } else if |PathsOf(r, op).0| == PATH_FIELD {
      FirstMisread(r, op, behind);
    } else {
      SecondMisread(r, op, behind);
    }
  }

  // ---- another request makes another tree ----

  predicate Has(nodes: seq<Node>, d: nat, name: string) { d < |nodes| && name in nodes[d].children }

  /** A new entry is the only one that is new. */
  lemma MadeEntries(s: NameState, op: Op, d: nat, name: string)
    requires NameInv(s) && Closed(s) && (op.Create? || op.Mkdir?) && Makes(s, op) && op.parent != NextInode(s)
    requires d < |s.nodes| && d != NextInode(s)
    ensures Has(Step(s, op).0.nodes, d, name) <==> (d, name) == (op.parent, op.name) || Has(s.nodes, d, name)
  {
    MakesAddNew(s, op);
  }

  /** A removed entry is the only one that is gone. */
  lemma RemovedEntries(s: NameState, op: Op, d: nat, name: string)
    requires Closed(s) && (op.Unlink? || op.Rmdir?) && Succeeds(s, op)
    ensures Has(Step(s, op).0.nodes, d, name) <==> (d, name) != (op.parent, op.name) && Has(s.nodes, d, name)
  {
  }

  /** A rename leaves the old name free, and what has the new name is what had the old one. */
  lemma RenamedEntries(s: NameState, op: Op, d: nat, name: string)
    requires NameInv(s) && Closed(s) && op.Rename? && Succeeds(s, op)
    requires (op.parent, op.name) != (op.newparent, op.newname)
    ensures op.parent < |s.nodes| && op.name in s.nodes[op.parent].children
    ensures var after := Step(s, op).0.nodes;
            && !Has(after, op.parent, op.name)
            && Has(after, op.newparent, op.newname)
            && after[op.newparent].children[op.newname] == s.nodes[op.parent].children[op.name]
            && ((d, name) != (op.parent, op.name) && Has(s.nodes, d, name) ==> Has(after, d, name))
            && ((d, name) != (op.newparent, op.newname) && Has(after, d, name) ==>
                  Has(s.nodes, d, name) && after[d].children[name] == s.nodes[d].children[name])
  {
    RenameEffect(s, op.parent, op.name, op.newparent, op.newname);
  }

  /** Where a path leads is a linked directory. */
  lemma PlaceLinked(nodes: seq<Node>, text: Text)
    requires TableOk(nodes) && Resolve(nodes, text).Place?
    ensures IsDirectory(nodes, Resolve(nodes, text).parent) && nodes[Resolve(nodes, text).parent].nlink > 0
  {
    var components := Components(text.chars);
    var front := components[..|components| - 1];
    if front == [] {
      assert NodeOk(nodes, 1);
    } else {
      NamedHasLink(nodes, Walk(nodes, front[..|front| - 1]).ino, front[|front| - 1]);
    }
  }

  /** The parents of what the kernel calls are linked directories. */
  lemma CallOnLinked(nodes: seq<Node>, kind: P.Kind, body: P.Body, behind: string)
    requires TableOk(nodes) && KernelCall(nodes, kind, body, behind).Call?
    ensures var op := KernelCall(nodes, kind, body, behind).op;
            && Replicated(op) && KindOf(op) == kind
            && IsDirectory(nodes, op.parent) && nodes[op.parent].nlink > 0
            && (op.Create? || op.Mkdir? ==> op.name !in nodes[op.parent].children)
            && (op.Rename? ==>
                  && IsDirectory(nodes, op.newparent)
                  && op.name in nodes[op.parent].children
                  && (op.newname in nodes[op.newparent].children ==>
                        nodes[op.newparent].children[op.newname] != nodes[op.parent].children[op.name]))
  {
    CallsReplicate(nodes, kind, body, behind);
    PlaceLinked(nodes, FirstText(body, behind));
  }

  lemma OtherMakingShows(a: Replica, b: Replica, op: Op, other: Op)
    requires Sane(a) && Sane(b) && Whole(a) && Whole(b) && SameTree(a, b) && Repeatable(a, op)
    requires (op.Create? && other.Create?) || (op.Mkdir? && other.Mkdir?)
    requires other != op && Makes(b.names, other)
    requires IsDirectory(b.names.nodes, other.parent) && b.names.nodes[other.parent].nlink > 0
    ensures !SameNodes(Step(a.names, op).0.nodes, Step(b.names, other).0.nodes)
  {
    NewParent(a, op.parent);
    NewParent(b, op.parent);
    NewParent(b, other.parent);
    MadeEntries(a.names, op, op.parent, op.name);
    MadeEntries(b.names, other, op.parent, op.name);
  }

  lemma OtherRemovalShows(a: Replica, b: Replica, op: Op, other: Op)
    requires Whole(a) && Whole(b) && SameTree(a, b) && Replicated(op) && Succeeds(a.names, op)
    requires (op.Unlink? && other.Unlink?) || (op.Rmdir? && other.Rmdir?)
    requires other != op && Succeeds(b.names, other)
    ensures !SameNodes(Step(a.names, op).0.nodes, Step(b.names, other).0.nodes)
  {
    RemovedEntries(a.names, op, op.parent, op.name);
    RemovedEntries(b.names, other, op.parent, op.name);
    assert Has(a.names.nodes, op.parent, op.name);
  }

  lemma OtherRenameShows(a: Replica, b: Replica, op: Op, other: Op)
    requires Sane(a) && Sane(b) && Whole(a) && Whole(b) && SameTree(a, b) && Repeatable(a, op)
    requires op.Rename? && other.Rename? && other != op && Succeeds(b.names, other)
    requires (other.parent, other.name) != (other.newparent, other.newname)
    ensures !SameNodes(Step(a.names, op).0.nodes, Step(b.names, other).0.nodes)
  {
    RenamedEntries(a.names, op, op.parent, op.name);
    RenamedEntries(b.names, other, op.parent, op.name);
    RenamedEntries(b.names, other, op.newparent, op.newname);
  }

  lemma OtherCallShows(a: Replica, b: Replica, op: Op, other: Op)
    requires Sane(a) && Sane(b) && Whole(a) && Whole(b) && SameTree(a, b) && Repeatable(a, op)
    requires Replicated(other) && KindOf(other) == KindOf(op) && other != op && Succeeds(b.names, other)
    requires IsDirectory(b.names.nodes, other.parent) && b.names.nodes[other.parent].nlink > 0
    requires other.Rename? ==> (other.parent, other.name) != (other.newparent, other.newname)
    ensures !SameNodes(Step(a.names, op).0.nodes, Step(b.names, other).0.nodes)
  {
    if op.Create? || op.Mkdir? {
      OtherMakingShows(a, b, op, other);
    } else if op.Rename? {
      OtherRenameShows(a, b, op, other);
    } else {
      OtherRemovalShows(a, b, op, other);
    }
  }

  /** A peer that misreads a request does not end up as its source does. */
  lemma MisreadDiverges(a: Replica, b: Replica, op: Op, behind: string)
    requires Sane(a) && Sane(b) && Whole(a) && Whole(b) && SameTree(a, b) && b.flagged == {}
    requires Repeatable(a, op) && Repeatable(b, op) && !Arrives(op, PathsOf(b, op), behind)
    ensures var after := Replay(b, KindOf(op), BodyOf(op, PathsOf(b, op)), behind).0;
            !(after.alive && after.flagged == {} && SameTree(StepOf(a, op), after))
  {
    var kind, body := KindOf(op), BodyOf(op, PathsOf(b, op));
    var call := KernelCall(b.names.nodes, kind, body, behind);
    MisreadCall(b, op, behind);
    NoEcho(b, kind, body, behind);
    if Readable(body, behind) && call.Call? {
      CallOnLinked(b.names.nodes, kind, body, behind);
      if Succeeds(b.names, call.op) { OtherCallShows(a, b, op, call.op); }
    }
  }

  // ---- exactly when peers agree ----

  lemma IssueTells(reps: seq<Replica>, source: nat, op: Op, behind: seq<string>, d: nat)
    requires AllWhole(reps) && source < |reps| == |behind| && d < |reps| && d != source && Replicated(op)
    requires Succeeds(reps[source].names, op) && reps[source].flagged == {} && reps[source].alive
    requires InField(PathsOf(reps[source], op))
    ensures Issue(reps, source, op, behind)[d]
            == Replay(reps[d], KindOf(op), BodyOf(op, PathsOf(reps[source], op)), behind[d]).0
  {
  }

  /** Where peers agree in the end, the request has arrived. */
  lemma ArrivalNeeded(reps: seq<Replica>, source: nat, op: Op, behind: seq<string>, d: nat)
    requires Agree(reps) && AllWhole(reps) && source < |reps| == |behind| && d < |reps| && d != source
    requires Replicated(op) && Succeeds(reps[source].names, op) && Repeats(reps, source, op)
    requires Agree(Issue(reps, source, op, behind))
    ensures Arrives(op, PathsOf(reps[source], op), behind[d])
  {
    PeersSame(reps, source, d);
    RepeatableElsewhere(reps[source], reps[d], op);
    IssueTells(reps, source, op, behind, d);
    IssueIsReplay(reps, source, op, behind);
    PeersSame(Issue(reps, source, op, behind), source, d);
    if !Arrives(op, PathsOf(reps[source], op), behind[d]) {
      MisreadDiverges(reps[source], reps[d], op, behind[d]);
    }
  }

  /** Trees that differ in the number of a new inode are no agreement. */
  lemma NumberNeeded(reps: seq<Replica>, source: nat, op: Op, behind: seq<string>, d: nat)
    requires Agree(reps) && AllWhole(reps) && source < |reps| == |behind| && d < |reps|
    requires Replicated(op) && Makes(reps[source].names, op) && Repeats(reps, source, op)
    requires AllArrive(reps, source, op, behind) && Agree(Issue(reps, source, op, behind))
    ensures NextInode(reps[d].names) == NextInode(reps[source].names)
  {
    EveryoneSteps(reps, source, op, behind, source);
    EveryoneSteps(reps, source, op, behind, d);
    PeersSame(reps, source, d);
    PeersSame(Issue(reps, source, op, behind), source, d);
    NumbersCompared(reps[source], reps[d], op);
  }

  lemma NumbersCompared(a: Replica, b: Replica, op: Op)
    requires Sane(a) && Sane(b) && Whole(a) && Whole(b) && SameTree(a, b)
    requires Replicated(op) && Makes(a.names, op) && KernelAllows(a.names, op)
    requires SameTree(StepOf(a, op), StepOf(b, op))
    ensures NextInode(a.names) == NextInode(b.names)
  {
    NewParent(a, op.parent);
    NewParent(b, op.parent);
    NewTreeIff(a, b, op);
  }

  /** A successful request that every kernel allows leaves all peers in agreement precisely
      when its paths arrive everywhere (they leave room for a terminator, or what lies behind
      the packet ends them) and, if it makes something, all allocators hand out one number. */
  lemma IssueAgreesIff(reps: seq<Replica>, source: nat, op: Op, behind: seq<string>)
    requires Agree(reps) && AllWhole(reps) && source < |reps| == |behind| && Replicated(op)
    requires Succeeds(reps[source].names, op) && Repeats(reps, source, op)
    ensures Agree(Issue(reps, source, op, behind)) <==>
            AllArrive(reps, source, op, behind) && SameNumbers(reps, source, op)
  {
    if AllArrive(reps, source, op, behind) && SameNumbers(reps, source, op) {
      IssueAgrees(reps, source, op, behind);
    } else if Agree(Issue(reps, source, op, behind)) {
      forall d: nat | d < |reps| && d != source ensures Arrives(op, PathsOf(reps[source], op), behind[d]) {
        ArrivalNeeded(reps, source, op, behind, d);
      }
      forall d: nat | d < |reps| && Makes(reps[source].names, op)
        ensures NextInode(reps[d].names) == NextInode(reps[source].names)
      {
        NumberNeeded(reps, source, op, behind, d);
      }
    }
  }

  // ---- a flag that stays up ----

  /** A new directory's path that is misread leads into that directory, which is not there. */
  lemma MkdirMisread(r: Replica, op: Op, behind: string)
    requires Sane(r) && Whole(r) && Repeatable(r, op) && op.Mkdir? && !Arrives(op, PathsOf(r, op), behind)
    requires CString(behind).Text?
    ensures Readable(BodyOf(op, PathsOf(r, op)), behind)
    ensures KernelCall(r.names.nodes, P.CREATE_DIR, BodyOf(op, PathsOf(r, op)), behind) == Refused
  {
    var nodes, path := r.names.nodes, PathsOf(r, op).0;
    OnePathMisread(r, op, behind);
    var rest := MisreadText(path, behind, true);
    PathReaches(nodes, r.paths, op.parent);
    ComponentsOfChild(r.paths[op.parent], op.name);
    WalkChild(nodes, Components(r.paths[op.parent]), op.name);
    BehindDirectory(nodes, path, rest);
  }

  lemma {:induction false} TailInRest(path: string, rest: string)
    requires EndsInSlash(path)
    ensures TailLength(path + rest) <= |rest|
  {
    if rest == "" {
      assert path + rest == path;
    } else {
      assert (path + rest)[..|path + rest| - 1] == path + rest[..|rest| - 1];
      TailInRest(path, rest[..|rest| - 1]);
    }
  }

  /** The last name of a path begins behind the directory's path. */
  lemma LastName(path: string, rest: string) returns (k: nat)
    requires EndsInSlash(path) && rest != "" && rest[|rest| - 1] != '/'
    ensures k < |rest| && Components(path + rest) == Components(path + rest[..k]) + [rest[k..]]
  {
    var text := path + rest;
    TailInRest(path, rest);
    k := |rest| - TailLength(text);
    assert text[|text| - 1] == rest[|rest| - 1];
    assert text[..|path| + k] == path + rest[..k] && text[|path| + k..] == rest[k..];
  }

  /** What follows a directory's path only adds to its components. */
  lemma {:induction false} MoreAfterSlash(path: string, rest: string) returns (more: seq<string>)
    requires EndsInSlash(path)
    ensures Components(path + rest) == Components(path) + more
    ensures more == [] <==> AllSlashes(rest)
    decreases |rest|
  {
    var text := path + rest;
    if rest == "" {
      more := [];
      assert text == path;
    } else if rest[|rest| - 1] == '/' {
      assert text[..|text| - 1] == path + rest[..|rest| - 1];
      more := MoreAfterSlash(path, rest[..|rest| - 1]);
    } else {
      var k := LastName(path, rest);
      var before := MoreAfterSlash(path, rest[..k]);
      more := before + [rest[k..]];
      assert Components(path) + more == (Components(path) + before) + [rest[k..]];
    }
  }

  /** What leads through a missing directory leads nowhere. */
  lemma {:induction false} ThroughMissing(nodes: seq<Node>, a: seq<string>, b: seq<string>)
    requires Walk(nodes, a) == Missing
    ensures Walk(nodes, a + b) == Missing
    decreases |b|
  {
    if b == [] {
      assert a + b == a;
    } else {
      assert (a + b)[..|a + b| - 1] == a + b[..|b| - 1];
      ThroughMissing(nodes, a, b[..|b| - 1]);
    }
  }

  lemma BehindDirectory(nodes: seq<Node>, path: string, rest: string)
    requires EndsInSlash(path) && !AllSlashes(rest) && Walk(nodes, Components(path)) == Missing
    ensures Resolve(nodes, Text(path + rest)) == Nowhere
  {
    var more := MoreAfterSlash(path, rest);
    var components := Components(path + rest);
    assert components[..|components| - 1] == Components(path) + more[..|more| - 1];
    ThroughMissing(nodes, Components(path), more[..|more| - 1]);
  }

  /** A new directory whose path fills its field, and is followed by more than slashes in the
      memory of another peer, passes that peer by: it keeps its own tree and a raised flag, which
      swallows its own next mkdir, whatever that is, and falls only when that succeeds. */
  lemma StuckFlagSilences(reps: seq<Replica>, source: nat, op: Op, behind: seq<string>, d: nat, next: Op)
    requires Agree(reps) && AllWhole(reps) && source < |reps| == |behind| && d < |reps| && d != source
    requires op.Mkdir? && next.Mkdir? && Succeeds(reps[source].names, op) && Repeats(reps, source, op)
    requires !Arrives(op, PathsOf(reps[source], op), behind[d]) && CString(behind[d]).Text?
    ensures var after := Issue(reps, source, op, behind)[d];
            && after.names == reps[d].names && after.paths == reps[d].paths && after.alive
            && P.CREATE_DIR in after.flagged
            && Handle(after, next).1 == Nothing
            && (P.CREATE_DIR !in Handle(after, next).0.flagged <==> Succeeds(after.names, next))
  {
    PeersSame(reps, source, d);
    RepeatableElsewhere(reps[source], reps[d], op);
    IssueTells(reps, source, op, behind, d);
    MkdirMisread(reps[d], op, behind[d]);
  }
  // ---- long names right after mounting ----

  function LongName(n: nat): (name: string)
    requires n > 0
    ensures |name| == n && FileName(name) && ProperName(name) && '\0' !in name
  {
    var name := seq(n, _ => 'a');
    assert name[0] == 'a';
    name
  }

  lemma LongPath(op: Op, p: nat)
    requires p > 0 && (op == Mkdir(1, LongName(254)) || op == Create(1, LongName(255)))
    ensures AllWhole(MountedEverywhere(p)) && Agree(MountedEverywhere(p))
    ensures Replicated(op) && Succeeds(Init(), op) && Repeats(MountedEverywhere(p), 0, op)
    ensures |PathsOf(MountedEverywhere(p)[0], op).0| == PATH_FIELD
    ensures PathsOf(MountedEverywhere(p)[0], op).0 == "/" + op.name + (if op.Mkdir? then "/" else "")
  {
    MountedAgree(p);
    assert MountedEverywhere(p)[0].paths[1] == "/";
    assert "/" + op.name + "" == "/" + op.name;
  }

  /** A directory with a 254-character name made in the root on peer 0 right after mounting: a
      peer that has more than slashes behind its packet does not get it, and its own next mkdir
      is told to nobody. */
  lemma LongDirectoryDiverges(p: nat, behind: seq<string>, next: string)
    requires p >= 2 && |behind| == p && CString(behind[1]).Text? && !AllSlashes(CString(behind[1]).chars)
    ensures AllWhole(MountedEverywhere(p))
    ensures var reps, op := MountedEverywhere(p), Mkdir(1, LongName(254));
            && Tells(reps[0], op) && InField(PathsOf(reps[0], op))
            && var after := Issue(reps, 0, op, behind);
               && Has(after[0].names.nodes, 1, LongName(254))
               && after[1].names == Init() && after[1].alive && P.CREATE_DIR in after[1].flagged
               && Succeeds(after[1].names, Mkdir(1, next)) && Handle(after[1], Mkdir(1, next)).1 == Nothing
  {
    var reps, op := MountedEverywhere(p), Mkdir(1, LongName(254));
    LongPath(op, p);
    AddNewEntry(Init(), 1, LongName(254), Directory);
    HandleIsStep(reps[0], op);
    StuckFlagSilences(reps, 0, op, behind, 1, Mkdir(1, next));
  }

  /** In an empty tree every path but the root's leads nowhere. */
  lemma {:induction false} EmptyTree(nodes: seq<Node>, components: seq<string>)
    requires IsDirectory(nodes, 1) && nodes[1].children == map[] && components != []
    ensures Walk(nodes, components) == Missing
    decreases |components|
  {
    if |components| > 1 {
      EmptyTree(nodes, components[..|components| - 1]);
    } else {
      assert components[..0] == [];
    }
  }

  lemma {:induction false} TailAfterSlash(path: string, rest: string)
    requires '/' in rest
    ensures TailLength(path + rest) < |rest|
  {
    var text := path + rest;
    if rest[|rest| - 1] != '/' {
      assert text[..|text| - 1] == path + rest[..|rest| - 1];
      assert rest == rest[..|rest| - 1] + [rest[|rest| - 1]];
      TailAfterSlash(path, rest[..|rest| - 1]);
    }
  }

  /** In an empty tree a path that goes on behind a name and a slash leads nowhere. */
  lemma BehindName(nodes: seq<Node>, path: string, rest: string)
    requires IsDirectory(nodes, 1) && nodes[1].children == map[]
    requires !AllSlashes(path) && '/' in rest && !Slashed(Text(path + rest))
    ensures Resolve(nodes, Text(path + rest)) == Nowhere
  {
    var text := path + rest;
    var start := |text| - TailLength(text);
    TailAfterSlash(path, rest);
    var components := Components(text);
    assert components[..|components| - 1] == Components(text[..start]);
    assert text[..start] == path + rest[..start - |path|];
    LettersOfComponents(text[..start]);
    LettersAppend(path, rest[..start - |path|]);
    SlashesHaveNoLetters(path);
    EmptyTree(nodes, Components(text[..start]));
  }

  /** What the kernel of an empty tree does with a long name and more. */
  lemma LongFileRead(rest: string)
    ensures var call := CallOn(Init().nodes, P.CREATE_FILE, Text("/" + LongName(255) + rest));
            call == if '/' in rest then Refused else Call(Create(1, LongName(255) + rest))
    ensures 255 + |rest| <= MAX_FILENAME_LENGTH ==>
              var after := Step(Init(), Create(1, LongName(255) + rest)).0.nodes;
              && Has(after, 1, LongName(255) + rest)
              && (Has(after, 1, LongName(255)) <==> rest == "")
  {
    var path, name := "/" + LongName(255), LongName(255) + rest;
    assert path[1] == 'a';
    if '/' in rest {
      if !Slashed(Text(path + rest)) { BehindName(Init().nodes, path, rest); }
    } else {
      assert path + rest == "/" + name;
      ComponentsOfChild("/", name);
      assert "/"[..0] == "";
      assert Components("/") == [] && [] + [name] == [name];
      ResolvesByComponents(Init().nodes, "/" + name, [], name, 1);
      NotSlashed("/", name);
    }
    if rest != "" { assert |name| != |LongName(255)|; } else { assert name == LongName(255); }
  }

  /** The replay of a creation by the text that the receiver reads. */
  lemma CreateReplayed(r: Replica, field: string, behind: string)
    requires Whole(r) && r.alive
    ensures var call, text := CallOn(r.names.nodes, P.CREATE_FILE, CString(field + behind)), CString(field + behind);
            var after := Replay(r, P.CREATE_FILE, P.Path(field), behind).0;
            && (!text.Text? || call.Refused? ==> !after.alive)
            && (text.Text? && call.Call? && call.op.Create? ==>
                  && (after.alive <==> Succeeds(r.names, call.op))
                  && after.names == Step(r.names, call.op).0)
  {
    NoEcho(r, P.CREATE_FILE, P.Path(field), behind);
  }

  /** The text of a long name and what lies behind it. */
  lemma LongFileText(behind: string)
    ensures |"/" + LongName(255)| == PATH_FIELD
    ensures CString(Encode("/" + LongName(255)) + behind) ==
            if CString(behind).Text? then Text("/" + LongName(255) + CString(behind).chars) else CString(behind)
  {
    ReceivedAs("/" + LongName(255), behind);
  }

  lemma LongFileReplay(behind: string)
    ensures |"/" + LongName(255)| == PATH_FIELD
    ensures var r, text := Replica(Init(), MOUNTED_PATHS, {}, true), CString(behind);
            var other := Replay(r, P.CREATE_FILE, P.Path(Encode("/" + LongName(255))), behind).0;
            if !text.Text? || '/' in text.chars || 255 + |text.chars| > MAX_FILENAME_LENGTH then !other.alive
            else
              && other.alive
              && Has(other.names.nodes, 1, LongName(255) + text.chars)
              && (Has(other.names.nodes, 1, LongName(255)) <==> text.chars == "")
  {
    var r := Replica(Init(), MOUNTED_PATHS, {}, true);
    LongFileText(behind);
    CreateReplayed(r, Encode("/" + LongName(255)), behind);
    if CString(behind).Text? { LongFileRead(CString(behind).chars); }
  }

  /** A file with a 255-character name made in the root on peer 0 right after mounting. What
      peer 1 reads behind its packet decides: nothing, and it makes the file too; a name that can
      be part of a file name, and it makes a file of another name; anything else, and it dies. */
  lemma LongFileOutcomes(p: nat, behind: seq<string>)
    requires p >= 2 && |behind| == p
    ensures AllWhole(MountedEverywhere(p))
    ensures var reps, op, text := MountedEverywhere(p), Create(1, LongName(255)), CString(behind[1]);
            && Tells(reps[0], op) && InField(PathsOf(reps[0], op))
            && var other := Issue(reps, 0, op, behind)[1];
               if !text.Text? || '/' in text.chars || 255 + |text.chars| > MAX_FILENAME_LENGTH then !other.alive
               else
                 && other.alive
                 && Has(other.names.nodes, 1, LongName(255) + text.chars)
                 && (Has(other.names.nodes, 1, LongName(255)) <==> text.chars == "")
  {
    var reps, op, text := MountedEverywhere(p), Create(1, LongName(255)), CString(behind[1]);
    LongPath(op, p);
    HandleIsStep(reps[0], op);
    IssueTells(reps, 0, op, behind, 1);
    LongFileReplay(behind[1]);
  }
}
