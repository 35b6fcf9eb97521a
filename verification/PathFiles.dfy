/** Names and contents together in the peer-to-peer version: the namespace that all peers keep
    alike gives inode numbers to paths, and the block store gives bytes to inode numbers. */
module PathFiles {
  import opened NameSpace
  import opened NameSafety
  import opened PathNames
  import opened BlockStore
  import opened FileSession
  import opened Replication
  import S = PeerStore
  import Sessions = PeerSessions

  /** A request to the namespace, or a flush, a truncating opening or a read of an inode. */
  datatype Happening = Names(request: Event) | Data(access: S.Event)

  /** The namespaces of all peers, and what has happened to the block store. */
  datatype Shared = Shared(reps: seq<Replica>, store: seq<S.Event>)

  ghost predicate Coherent(s: Shared, cfg: BlockStore.Config) {
    |s.reps| == cfg.p && AllWhole(s.reps) && Agree(s.reps) && S.AllLegal(s.store, cfg)
  }

  /** Whatever a request makes takes over an inode number, the same on all peers. */
  ghost function TakesOver(reps: seq<Replica>, e: Event): seq<S.Event>
    requires AllWhole(reps)
  {
    if e.Issued? && e.source < |reps| && Makes(reps[e.source].names, e.op) then
      [S.Made(NextInode(reps[e.source].names))]
    else []
  }

  ghost predicate Legal(s: Shared, h: Happening, cfg: BlockStore.Config)
    requires Coherent(s, cfg)
  {
    match h
    case Names(e) => LegalEvent(s.reps, e)
    case Data(e) => !e.Made? && S.Legal(S.After(s.store, cfg), e, cfg)
  }

  ghost function Next(s: Shared, h: Happening, cfg: BlockStore.Config): Shared
    requires Coherent(s, cfg) && Legal(s, h, cfg)
  {
    match h
    case Names(e) => Shared(Happen(s.reps, e), s.store + TakesOver(s.reps, e))
    case Data(e) => s.(store := s.store + [e])
  }

  lemma NextCoherent(s: Shared, h: Happening, cfg: BlockStore.Config)
    requires Coherent(s, cfg) && Legal(s, h, cfg)
    ensures Coherent(Next(s, h, cfg), cfg)
  {
    match h
    case Names(e) =>
      OneEventAgrees(s.reps, e);
      var more := TakesOver(s.reps, e);
      if more != [] { Sessions.OneMore(s.store, more[0], cfg); }
      assert more == [] ==> s.store + more == s.store;
    case Data(e) => Sessions.OneMore(s.store, e, cfg);
  }

  lemma OneEventAgrees(reps: seq<Replica>, e: Event)
    requires Agree(reps) && AllWhole(reps) && LegalEvent(reps, e)
    ensures Agree(Happen(reps, e))
  {
    match e
    case Local(rank, op) => LocalAgrees(reps, rank, op);
    case Issued(source, op, behind) => IssueAgrees(reps, source, op, behind);
  }

  ghost predicate LegalRun(s: Shared, hs: seq<Happening>, cfg: BlockStore.Config)
    requires Coherent(s, cfg)
    decreases |hs|
  {
    hs == [] ||
    (Legal(s, hs[0], cfg) && (NextCoherent(s, hs[0], cfg); LegalRun(Next(s, hs[0], cfg), hs[1..], cfg)))
  }

  ghost function RunAll(s: Shared, hs: seq<Happening>, cfg: BlockStore.Config): (after: Shared)
    requires Coherent(s, cfg) && LegalRun(s, hs, cfg)
    ensures Coherent(after, cfg)
    decreases |hs|
  {
    if hs == [] then s
    else
      NextCoherent(s, hs[0], cfg);
      RunAll(Next(s, hs[0], cfg), hs[1..], cfg)
  }

  ghost function Mounted(cfg: BlockStore.Config): (s: Shared)
    ensures Coherent(s, cfg)
  {
    MountedAgree(cfg.p);
    Shared(MountedEverywhere(cfg.p), [])
  }

  /** Where a path leads on a peer. */
  function Lookup(s: Shared, peer: nat, path: seq<string>): Found
    requires peer < |s.reps|
  {
    Walk(s.reps[peer].names.nodes, path)
  }

  lemma SameLookup(s: Shared, i: nat, j: nat, path: seq<string>, cfg: BlockStore.Config)
    requires Coherent(s, cfg) && i < cfg.p && j < cfg.p
    ensures Lookup(s, i, path) == Lookup(s, j, path)
  {
    PeersSame(s.reps, i, j);
    SameWalk(s.reps[i], s.reps[j], path);
  }

  /** What a peer finds when it opens a path without truncation. */
  ghost function Opened(s: Shared, peer: nat, path: seq<string>, cfg: BlockStore.Config): FileData
    requires Coherent(s, cfg) && peer < cfg.p && Lookup(s, peer, path).Found?
  {
    Sessions.Opened(S.After(s.store, cfg), peer, Lookup(s, peer, path).ino, cfg)
  }

  /** In every reachable state a path opened on any two peers that have not truncated the file
      themselves shows the same bytes: those last flushed to the file since it was made, and
      none if there was no flush, whatever file had its inode number before. */
  lemma SameContentEverywhere(hs: seq<Happening>, path: seq<string>, i: nat, j: nat, cfg: BlockStore.Config)
    requires LegalRun(Mounted(cfg), hs, cfg) && i < cfg.p && j < cfg.p
    requires Lookup(RunAll(Mounted(cfg), hs, cfg), i, path).Found?
    requires var s := RunAll(Mounted(cfg), hs, cfg);
             var ino := Lookup(s, i, path).ino;
             S.Untouched(s.store, i, ino) && S.Untouched(s.store, j, ino)
    ensures var s := RunAll(Mounted(cfg), hs, cfg);
            var ino := Lookup(s, i, path).ino;
            && Lookup(s, j, path) == Found(ino)
            && var f, g := Opened(s, i, path, cfg), Opened(s, j, path, cfg);
               && (f.buf.Some? ==> f.size <= |f.buf.value|) && (g.buf.Some? ==> g.size <= |g.buf.value|)
               && Content(f) == Content(g) == Sessions.LastContent(s.store, ino, cfg)
  {
    var s := RunAll(Mounted(cfg), hs, cfg);
    SameLookup(s, i, j, path, cfg);
    Sessions.OpenFinds(s.store, i, Lookup(s, i, path).ino, cfg);
    Sessions.OpenFinds(s.store, j, Lookup(s, j, path).ino, cfg);
  }

  // ---- from a flush to an opening ----

  /** A read, or a truncating opening by another peer. */
  predicate Harmless(e: S.Event, peer: nat) { e.Fetch? || (e.Truncate? && e.peer != peer) }

  /** The run leaves the path where it is, flushes nothing to `ino`, and truncates it on no
      opening by `peer`. */
  ghost predicate Keeps(s: Shared, hs: seq<Happening>, path: seq<string>, ino: nat, peer: nat, cfg: BlockStore.Config)
    requires Coherent(s, cfg) && LegalRun(s, hs, cfg)
    decreases |hs|
  {
    && Lookup(s, 0, path) == Found(ino)
    && (hs == [] ||
        (&& (hs[0].Data? && hs[0].access.inode == ino ==> Harmless(hs[0].access, peer))
         && (NextCoherent(s, hs[0], cfg); Keeps(Next(s, hs[0], cfg), hs[1..], path, ino, peer, cfg))))
  }

  /** A named inode's number is given to nothing new. */
  lemma NamedNotTaken(s: Shared, e: Event, path: seq<string>, ino: nat, cfg: BlockStore.Config)
    requires Coherent(s, cfg) && LegalEvent(s.reps, e) && Lookup(s, 0, path) == Found(ino)
    ensures TakesOver(s.reps, e) == [] || TakesOver(s.reps, e)[0].inode != ino
  {
    if TakesOver(s.reps, e) != [] {
      SameLookup(s, 0, e.source, path, cfg);
      NextInodeUnused(s.reps[e.source].names);
      if path != [] { WalkedIsNamed(s.reps[e.source].names.nodes, path, ino); }
    }
  }

  /** What the store knows of an inode does not change by events on others. */
  lemma OthersKeepLast(store: seq<S.Event>, e: S.Event, ino: nat, peer: nat)
    requires e.inode == ino ==> Harmless(e, peer)
    ensures S.LastWrite(store + [e], ino) == S.LastWrite(store, ino)
    ensures S.Untouched(store + [e], peer, ino) == S.Untouched(store, peer, ino)
  {
    assert (store + [e])[..|store|] == store;
  }

  lemma {:induction false} KeepsLast(s: Shared, hs: seq<Happening>, path: seq<string>, ino: nat, peer: nat,
                                     cfg: BlockStore.Config)
    requires Coherent(s, cfg) && LegalRun(s, hs, cfg) && Keeps(s, hs, path, ino, peer, cfg)
    ensures var after := RunAll(s, hs, cfg);
            && Lookup(after, 0, path) == Found(ino)
            && S.LastWrite(after.store, ino) == S.LastWrite(s.store, ino)
            && S.Untouched(after.store, peer, ino) == S.Untouched(s.store, peer, ino)
    decreases |hs|
  {
    if hs != [] {
      NextCoherent(s, hs[0], cfg);
      match hs[0] {
        case Names(e) =>
          NamedNotTaken(s, e, path, ino, cfg);
          var more := TakesOver(s.reps, e);
          if more != [] { OthersKeepLast(s.store, more[0], ino, peer); }
          assert more == [] ==> s.store + more == s.store;
        case Data(e) => OthersKeepLast(s.store, e, ino, peer);
      }
      KeepsLast(Next(s, hs[0], cfg), hs[1..], path, ino, peer, cfg);
    }
  }

  /** A flush is the last write to its inode. */
  lemma FlushIsLast(store: seq<S.Event>, flush: S.Event, peer: nat)
    requires flush.Write?
    ensures S.LastWrite(store + [flush], flush.inode) == S.Last(flush)
    ensures S.Untouched(store + [flush], peer, flush.inode)
  {
    assert (store + [flush])[..|store|] == store;
  }

  /** An untouched path shows the last write to the inode that it leads to. */
  lemma PathShows(s: Shared, w: S.Event, path: seq<string>, root: nat, cfg: BlockStore.Config)
    requires Coherent(s, cfg) && root < cfg.p && w.Write? && Lookup(s, 0, path) == Found(w.inode)
    requires S.LastWrite(s.store, w.inode) == S.Last(w) && S.Untouched(s.store, root, w.inode)
    ensures Lookup(s, root, path) == Found(w.inode) && w.size <= |w.buf|
    ensures var f := Opened(s, root, path, cfg);
            (f.buf.Some? ==> f.size <= |f.buf.value|) && Content(f) == w.buf[..w.size]
  {
    SameLookup(s, 0, root, path, cfg);
    Sessions.LastBufferLength(s.store, w.inode, cfg);
    Sessions.OpenFinds(s.store, root, w.inode, cfg);
  }

  /** Close to open by path: what one peer flushes to the file that it finds at a path, every
      peer finds when it opens that path later, as long as the path stays, nothing else is
      flushed to the file, and that peer has not truncated it. */
  lemma FlushedPathFound(s: Shared, flush: S.Event, later: seq<Happening>, path: seq<string>, root: nat,
                         cfg: BlockStore.Config)
    requires Coherent(s, cfg) && flush.Write? && root < cfg.p && Legal(s, Data(flush), cfg)
    requires Lookup(s, flush.source, path) == Found(flush.inode)
    requires Coherent(Next(s, Data(flush), cfg), cfg) && LegalRun(Next(s, Data(flush), cfg), later, cfg)
    requires Keeps(Next(s, Data(flush), cfg), later, path, flush.inode, root, cfg)
    ensures var end := RunAll(Next(s, Data(flush), cfg), later, cfg);
            && Lookup(end, root, path) == Found(flush.inode)
            && flush.size <= |flush.buf|
            && var f := Opened(end, root, path, cfg);
               (f.buf.Some? ==> f.size <= |f.buf.value|) && Content(f) == flush.buf[..flush.size]
  {
    var flushed := Next(s, Data(flush), cfg);
    FlushIsLast(s.store, flush, root);
    KeepsLast(flushed, later, path, flush.inode, root, cfg);
    PathShows(RunAll(flushed, later, cfg), flush, path, root, cfg);
  }
}
