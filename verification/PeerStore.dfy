/** The block store of the peer-to-peer version: every peer keeps a block directory of its
    own, any peer can be the source of a write or a read. */
module PeerStore {
  import opened Partition
  import opened BlockStore
  import opened Blocks
  import opened Cluster

  /** `st_size` and `st_blocks` of an inode on one peer. */
  datatype Attr = Attr(size: nat, blocks: nat)

  type Attrs = map<nat, Attr>

  function AttrOf(attrs: Attrs, inode: nat): Attr {
    if inode in attrs then attrs[inode] else Attr(0, 0)
  }

  /** The heaps, block directories and file attributes of all peers. */
  datatype Peers = Peers(heaps: seq<Heap>, dirs: seq<BlockLists>, attrs: seq<Attrs>)

  predicate Shaped(s: Peers, cfg: Config) {
    |s.heaps| == |s.dirs| == |s.attrs| == cfg.p
  }

  function AttrsOf(s: Peers, peer: nat): Attrs {
    if peer < |s.attrs| then s.attrs[peer] else map[]
  }

  function Fresh(cfg: Config): (s: Peers)
    ensures Shaped(s, cfg)
  {
    Peers(seq(cfg.p, _ => map[]), seq(cfg.p, _ => map[]), seq(cfg.p, _ => map[]))
  }

  /** A flush of `buf`, `size` bytes padded to whole blocks, by peer `source`, whose own
      block count is `blocks`, at least as many; an opening that truncates, which only its
      own peer notices; a new file that takes over an inode number on all peers; or the
      fetching of a file's blocks by a peer. */
  datatype Event =
    | Write(source: nat, inode: nat, size: nat, blocks: nat, buf: seq<Byte>, addrs: seq<Addr>)
    | Truncate(peer: nat, inode: nat)
    | Made(inode: nat)
    | Fetch(peer: nat, inode: nat)

  ghost predicate Legal(s: Peers, e: Event, cfg: Config)
    requires Shaped(s, cfg)
  {
    match e
    case Write(source, inode, size, blocks, buf, addrs) =>
      && source < cfg.p
      && |addrs| == BlockCount(size, cfg.B) <= blocks
      && |buf| == |addrs| * cfg.B
      && FreshEverywhere(s.heaps, addrs, cfg)
    case Truncate(peer, inode) => peer < cfg.p
    case Made(inode) => true
    case Fetch(peer, inode) => peer < cfg.p
  }

  /** One peer's directory after it has recorded the gathered addresses. */
  function ListsAfter(lists: BlockLists, inode: nat, addrs: seq<Addr>, cfg: Config): BlockLists {
    lists[inode := Recorded(ListOf(lists, inode), addrs, inode, cfg)]
  }

  /** The attributes of a peer other than the source: the new size, and as many blocks as the list has. */
  function AttrsAfter(attrs: Attrs, lists: BlockLists, inode: nat, size: nat, addrs: seq<Addr>, cfg: Config): Attrs {
    attrs[inode := Attr(size, |ListsAfter(lists, inode, addrs, cfg)[inode]|)]
  }

  function RecordedDirs(s: Peers, inode: nat, addrs: seq<Addr>, cfg: Config): (dirs: seq<BlockLists>)
    requires Shaped(s, cfg)
    ensures |dirs| == cfg.p
  {
    seq(cfg.p, d requires 0 <= d < cfg.p => ListsAfter(s.dirs[d], inode, addrs, cfg))
  }

  function RecordedAttrs(s: Peers, source: nat, inode: nat, size: nat, blocks: nat, addrs: seq<Addr>, cfg: Config)
    : (attrs: seq<Attrs>)
    requires Shaped(s, cfg)
    ensures |attrs| == cfg.p
  {
    seq(cfg.p, d requires 0 <= d < cfg.p =>
      if d == source then s.attrs[d][inode := Attr(size, blocks)]
      else AttrsAfter(s.attrs[d], s.dirs[d], inode, size, addrs, cfg))
  }

  /** On each peer the new file starts empty, and with the block list that its number has. */
  function TakenOver(s: Peers, inode: nat, cfg: Config): (after: Peers)
    requires Shaped(s, cfg)
    ensures Shaped(after, cfg)
  {
    s.(attrs := seq(cfg.p, d requires 0 <= d < cfg.p => s.attrs[d][inode := Attr(0, 0)]),
       dirs := seq(cfg.p, d requires 0 <= d < cfg.p => s.dirs[d][inode := ListOf(s.dirs[d], inode)]))
  }

  /** All peers record the gathered addresses; all but the source take over the size, and
      the length of their list as the block count. */
  function Next(s: Peers, e: Event, cfg: Config): (after: Peers)
    requires Shaped(s, cfg)
    requires e.Write? ==> |e.buf| == |e.addrs| * cfg.B
    ensures Shaped(after, cfg)
  {
    match e
    case Write(source, inode, size, blocks, buf, addrs) =>
      Peers(WriteHeaps(s.heaps, buf, addrs, cfg),
            RecordedDirs(s, inode, addrs, cfg),
            RecordedAttrs(s, source, inode, size, blocks, addrs, cfg))
    case Truncate(peer, inode) =>
      var emptied: Attrs := AttrsOf(s, peer)[inode := Attr(0, 0)];
      if peer < cfg.p then s.(attrs := s.attrs[peer := emptied]) else s
    case Made(inode) => TakenOver(s, inode, cfg)
    case Fetch(peer, inode) =>
      if peer < cfg.p then
        var looked: BlockLists := s.dirs[peer][inode := ListOf(s.dirs[peer], inode)];
        s.(dirs := s.dirs[peer := looked])
      else s
  }

  ghost predicate AllLegal(events: seq<Event>, cfg: Config)
    decreases |events|, 0
  {
    events == [] ||
    (&& AllLegal(events[..|events| - 1], cfg)
     && Legal(After(events[..|events| - 1], cfg), events[|events| - 1], cfg))
  }

  ghost function After(events: seq<Event>, cfg: Config): (s: Peers)
    requires AllLegal(events, cfg)
    ensures Shaped(s, cfg)
    decreases |events|, 1
  {
    if events == [] then Fresh(cfg) else Next(After(events[..|events| - 1], cfg), events[|events| - 1], cfg)
  }

  /** The addresses of the writes to an inode number, oldest first, whatever files had it. */
  function WritesTo(events: seq<Event>, inode: nat): seq<seq<Addr>> {
    if events == [] then []
    else
      var e := events[|events| - 1];
      WritesTo(events[..|events| - 1], inode) + (if e.Write? && e.inode == inode then [e.addrs] else [])
  }

  datatype Last = Never | Last(w: Event)

  /** The event leaves the last write to an inode the last. */
  predicate Passes(e: Event, inode: nat) { e.inode != inode || e.Truncate? || e.Fetch? }

  /** The last write to the file that has an inode number. */
  function LastWrite(events: seq<Event>, inode: nat): (last: Last)
    ensures last.Last? ==> last.w.Write? && last.w.inode == inode
  {
    if events == [] then Never
    else
      var e := events[|events| - 1];
      if Passes(e, inode) then LastWrite(events[..|events| - 1], inode)
      else if e.Write? then Last(e) else Never
  }

  // ---- all directories are the same ----

  /** After any sequence of writes from any sources, every peer's block list of every inode
      is the same: the one that the history of writes to that inode makes. */
  lemma {:induction false} SameListsEverywhere(events: seq<Event>, inode: nat, d: nat, cfg: Config)
    requires AllLegal(events, cfg) && d < cfg.p
    ensures ListOf(After(events, cfg).dirs[d], inode) == History(WritesTo(events, inode), inode, cfg)
  {
    if events != [] {
      var front, e := events[..|events| - 1], events[|events| - 1];
      SameListsEverywhere(front, inode, d, cfg);
      if e.Write? && e.inode == inode {
        var writes := WritesTo(front, inode);
        assert (writes + [e.addrs])[..|writes|] == writes;
      } else {
        assert WritesTo(events, inode) == WritesTo(front, inode);
      }
    }
  }

  lemma {:induction false} LastAddresses(events: seq<Event>, inode: nat)
    ensures LastWrite(events, inode).Last? ==> WritesTo(events, inode) != []
    ensures LastWrite(events, inode).Last? ==>
              WritesTo(events, inode)[|WritesTo(events, inode)| - 1] == LastWrite(events, inode).w.addrs
  {
    if events != [] {
      var front, e := events[..|events| - 1], events[|events| - 1];
      LastAddresses(front, inode);
      if !(e.Write? && e.inode == inode) {
        assert WritesTo(events, inode) == WritesTo(front, inode);
      }
    }
  }

  // ---- any peer reads what was written last ----

  /** The bytes of an inode's last write are where its addresses say, each block on the heap
      of the rank whose share it is. */
  ghost predicate Backed(s: Peers, w: Event, cfg: Config)
    requires Shaped(s, cfg) && w.Write?
  {
    && |w.buf| == |w.addrs| * cfg.B
    && |w.addrs| == BlockCount(w.size, cfg.B)
    && Local(s.heaps, w.addrs, cfg)
    && ReadBytes(s.heaps, w.addrs, cfg) == w.buf
  }

  lemma {:induction false} LastWriteBacked(events: seq<Event>, inode: nat, cfg: Config)
    requires AllLegal(events, cfg) && LastWrite(events, inode).Last?
    ensures Backed(After(events, cfg), LastWrite(events, inode).w, cfg)
  {
    var front, e := events[..|events| - 1], events[|events| - 1];
    var before := After(front, cfg);
    if e.Write? && e.inode == inode {
      ReadAfterWrite(before.heaps, e.buf, e.addrs, seq(|e.addrs| * cfg.B, _ => 0), cfg);
    } else {
      LastWriteBacked(front, inode, cfg);
      var w := LastWrite(front, inode).w;
      if e.Write? {
        WriteGrows(before.heaps, e.buf, e.addrs, cfg);
        ReadFrame(before.heaps, After(events, cfg).heaps, w.addrs, seq(|w.addrs| * cfg.B, _ => 0), cfg);
      }
    }
  }

  /** What a read of `size` bytes by peer `root` needs, and what a full one gets. */
  ghost predicate Readable(s: Peers, root: nat, inode: nat, size: nat, cfg: Config)
    requires Shaped(s, cfg) && root < cfg.p
  {
    Retrievable(s.heaps, ListOf(s.dirs[root], inode), size, cfg)
  }

  function Read(s: Peers, root: nat, inode: nat, size: nat, cfg: Config): Option<seq<Byte>>
    requires Shaped(s, cfg) && root < cfg.p
    requires size > 0 ==> Readable(s, root, inode, size, cfg)
  {
    ReadResult(s.heaps, ListOf(s.dirs[root], inode), size, size, cfg)
  }

  /** Any peer whose size is the last flushed one reads the bytes of the last write, whoever
      made it, and every address goes to the rank that allocated it. */
  lemma AnyPeerReadsLastWrite(events: seq<Event>, root: nat, inode: nat, cfg: Config)
    requires AllLegal(events, cfg) && root < cfg.p && LastWrite(events, inode).Last?
    ensures var s, w := After(events, cfg), LastWrite(events, inode).w;
            && Readable(s, root, inode, w.size, cfg)
            && (w.size > 0 ==> Read(s, root, inode, w.size, cfg) == Some(w.buf))
  {
    SameListsEverywhere(events, inode, root, cfg);
    LastAddresses(events, inode);
    HistoryShape(WritesTo(events, inode), inode, cfg);
    LastWriteBacked(events, inode, cfg);
  }

  ghost predicate AllFetches(events: seq<Event>, cfg: Config) {
    forall k :: 0 <= k < |events| ==> events[k].Fetch? && events[k].peer < cfg.p
  }

  /** However many files are fetched by whatever peers, nothing of the history is lost. */
  lemma {:induction false} FetchesPass(events: seq<Event>, fetches: seq<Event>, peer: nat, inode: nat, cfg: Config)
    requires AllLegal(events, cfg) && AllFetches(fetches, cfg)
    ensures AllLegal(events + fetches, cfg)
    ensures LastWrite(events + fetches, inode) == LastWrite(events, inode)
    ensures Untouched(events + fetches, peer, inode) == Untouched(events, peer, inode)
    ensures After(events + fetches, cfg).heaps == After(events, cfg).heaps
    ensures After(events + fetches, cfg).attrs == After(events, cfg).attrs
  {
    if fetches == [] {
      assert events + fetches == events;
    } else {
      var front := fetches[..|fetches| - 1];
      FetchesPass(events, front, peer, inode, cfg);
      assert (events + fetches)[..|events + fetches| - 1] == events + front;
    }
  }

  /** Any number of reads later, any peer still reads the bytes of the last write. */
  lemma ReadsRepeat(events: seq<Event>, fetches: seq<Event>, root: nat, inode: nat, cfg: Config)
    requires AllLegal(events, cfg) && AllFetches(fetches, cfg)
    requires root < cfg.p && LastWrite(events, inode).Last?
    ensures AllLegal(events + fetches, cfg)
    ensures var s, w := After(events + fetches, cfg), LastWrite(events, inode).w;
            && Readable(s, root, inode, w.size, cfg)
            && (w.size > 0 ==> Read(s, root, inode, w.size, cfg) == Some(w.buf))
  {
    FetchesPass(events, fetches, root, inode, cfg);
    AnyPeerReadsLastWrite(events + fetches, root, inode, cfg);
  }

  /** The peer has not truncated the inode since its last write or since its file was made. */
  predicate Untouched(events: seq<Event>, peer: nat, inode: nat) {
    if events == [] then true
    else
      var e := events[|events| - 1];
      if e.inode != inode || e.Fetch? then Untouched(events[..|events| - 1], peer, inode)
      else !e.Truncate? || (e.peer != peer && Untouched(events[..|events| - 1], peer, inode))
  }

  /** A peer that has not truncated the inode since its last write has the size of that write. */
  lemma {:induction false} SizeOfLastWrite(events: seq<Event>, peer: nat, inode: nat, cfg: Config)
    requires AllLegal(events, cfg) && peer < cfg.p && Untouched(events, peer, inode)
    ensures AttrOf(After(events, cfg).attrs[peer], inode).size
            == if LastWrite(events, inode).Last? then LastWrite(events, inode).w.size else 0
  {
    if events != [] {
      var e := events[|events| - 1];
      if Passes(e, inode) {
        SizeOfLastWrite(events[..|events| - 1], peer, inode, cfg);
      }
    }
  }

  // ---- block counts ----

  lemma {:induction false} MaxBlocksIs(writes: seq<seq<Addr>>, n: nat)
    requires writes != [] && n == |writes[|writes| - 1]|
    ensures n <= MaxBlocks(writes)
    ensures MaxBlocks(writes) == n <==> forall k :: 0 <= k < |writes| ==> |writes[k]| <= n
  {
    MaxBlocksBounds(writes);
  }

  lemma {:induction false} MaxBlocksBounds(writes: seq<seq<Addr>>)
    ensures forall k :: 0 <= k < |writes| ==> |writes[k]| <= MaxBlocks(writes)
    ensures writes != [] ==> exists k :: 0 <= k < |writes| && |writes[k]| == MaxBlocks(writes)
  {
    if writes != [] {
      var front, last := writes[..|writes| - 1], |writes| - 1;
      MaxBlocksBounds(front);
      assert forall k :: 0 <= k < last ==> writes[k] == front[k];
      if |writes[last]| >= MaxBlocks(front) {
        assert |writes[last]| == MaxBlocks(writes);
      } else {
        var k :| 0 <= k < |front| && |front[k]| == MaxBlocks(front);
        assert |writes[k]| == MaxBlocks(writes);
      }
    }
  }

  /** The block count of a peer that has not truncated the inode since its last write: the
      source's own, and elsewhere the length of the longest write ever. */
  lemma {:induction false} BlocksOfLastWrite(events: seq<Event>, peer: nat, inode: nat, cfg: Config)
    requires AllLegal(events, cfg) && peer < cfg.p && Untouched(events, peer, inode)
    ensures AttrOf(After(events, cfg).attrs[peer], inode).blocks ==
            match LastWrite(events, inode)
            case Never => 0
            case Last(w) => if w.source == peer then w.blocks else MaxBlocks(WritesTo(events, inode))
  {
    if events != [] {
      var front, e := events[..|events| - 1], events[|events| - 1];
      if e.Write? && e.inode == inode {
        SameListsEverywhere(events, inode, peer, cfg);
        HistoryShape(WritesTo(events, inode), inode, cfg);
      } else if Passes(e, inode) {
        BlocksOfLastWrite(front, peer, inode, cfg);
        assert WritesTo(events, inode) == WritesTo(front, inode);
      }
    }
  }

  /** The history leaves `peer` with a block count that rounds the size up: the last write was
      its own and its count was right, or no write to the inode was ever longer. */
  ghost predicate RightHistory(events: seq<Event>, peer: nat, inode: nat) {
    match LastWrite(events, inode)
    case Never => true
    case Last(w) =>
      if w.source == peer then w.blocks == |w.addrs|
      else forall k :: 0 <= k < |WritesTo(events, inode)| ==> |WritesTo(events, inode)[k]| <= |w.addrs|
  }

  /** Over every history: the block count of a peer rounds its size up precisely when the
      history is right, and never falls short. */
  lemma BlockCountRightIff(events: seq<Event>, peer: nat, inode: nat, cfg: Config)
    requires AllLegal(events, cfg) && peer < cfg.p && Untouched(events, peer, inode)
    ensures var attr := AttrOf(After(events, cfg).attrs[peer], inode);
            && BlockCount(attr.size, cfg.B) <= attr.blocks
            && (attr.blocks == BlockCount(attr.size, cfg.B) <==> RightHistory(events, peer, inode))
  {
    BlocksOfLastWrite(events, peer, inode, cfg);
    SizeOfLastWrite(events, peer, inode, cfg);
    if LastWrite(events, inode).Last? {
      LastAddresses(events, inode);
      LastWriteCounts(events, inode, cfg);
      MaxBlocksIs(WritesTo(events, inode), |LastWrite(events, inode).w.addrs|);
    }
  }

  lemma {:induction false} LastWriteCounts(events: seq<Event>, inode: nat, cfg: Config)
    requires AllLegal(events, cfg) && LastWrite(events, inode).Last?
    ensures var w := LastWrite(events, inode).w;
            |w.addrs| == BlockCount(w.size, cfg.B) <= w.blocks
  {
    var e := events[|events| - 1];
    if !(e.Write? && e.inode == inode) {
      LastWriteCounts(events[..|events| - 1], inode, cfg);
    }
  }

  /** What a peer gets that reads a file with the size that it has. */
  lemma WholeRead(events: seq<Event>, peer: nat, inode: nat, cfg: Config)
    requires AllLegal(events, cfg) && peer < cfg.p && Untouched(events, peer, inode)
    ensures var s, last := After(events, cfg), LastWrite(events, inode);
            var size := AttrOf(s.attrs[peer], inode).size;
            && (size > 0 ==> Readable(s, peer, inode, size, cfg))
            && Read(s, peer, inode, size, cfg) == if last.Last? && last.w.size > 0 then Some(last.w.buf) else None
  {
    SizeOfLastWrite(events, peer, inode, cfg);
    if LastWrite(events, inode).Last? { AnyPeerReadsLastWrite(events, peer, inode, cfg); }
  }

  /** Two histories that say the same of every file. */
  ghost predicate SameFiles(events: seq<Event>, after: seq<Event>) {
    && (forall i: nat :: LastWrite(after, i) == LastWrite(events, i))
    && (forall d: nat, i: nat :: Untouched(after, d, i) == Untouched(events, d, i))
  }

  /** The history after a read, if there was something to fetch. */
  ghost function Fetched(events: seq<Event>, peer: nat, inode: nat, size: nat): seq<Event> {
    if size == 0 then events else events + [Fetch(peer, inode)]
  }

  lemma FetchedOnce(events: seq<Event>, peer: nat, inode: nat, size: nat, cfg: Config)
    requires AllLegal(events, cfg) && peer < cfg.p
    ensures var after := Fetched(events, peer, inode, size);
            && AllLegal(after, cfg) && SameFiles(events, after)
            && After(after, cfg) == if size == 0 then After(events, cfg)
                                    else Next(After(events, cfg), Fetch(peer, inode), cfg)
  {
    var after := events + [Fetch(peer, inode)];
    assert after[..|events|] == events;
    forall i: nat ensures LastWrite(after, i) == LastWrite(events, i) {
    }
    forall d: nat, i: nat ensures Untouched(after, d, i) == Untouched(events, d, i) {
    }
  }

  /** The same heaps, attributes, and block list of every inode on every peer. */
  ghost predicate SameStore(s: Peers, after: Peers, cfg: Config)
    requires Shaped(s, cfg) && Shaped(after, cfg)
  {
    && after.heaps == s.heaps && after.attrs == s.attrs
    && forall d: nat, inode: nat :: d < cfg.p ==> ListOf(after.dirs[d], inode) == ListOf(s.dirs[d], inode)
  }

  /** A look into a directory changes no block list: at most an empty one is put where none was. */
  lemma FetchKeepsStore(s: Peers, peer: nat, inode: nat, cfg: Config)
    requires Shaped(s, cfg) && peer < cfg.p
    ensures SameStore(s, Next(s, Fetch(peer, inode), cfg), cfg)
  {
  }

  // ---- the program ----

  method EmptyDirectories(p: nat) returns (blocks: seq<BlockDirectory>)
    ensures |blocks| == p && (forall i, j :: 0 <= i < j < p ==> blocks[i] != blocks[j])
    ensures forall i :: 0 <= i < p ==> fresh(blocks[i]) && blocks[i].lists == map[]
  {
    blocks := [];
    for i := 0 to p
      invariant |blocks| == i && (forall k, l :: 0 <= k < l < i ==> blocks[k] != blocks[l])
      invariant forall k :: 0 <= k < i ==> fresh(blocks[k]) && blocks[k].lists == map[]
    {
      var directory := new BlockDirectory();
      blocks := blocks + [directory];
    }
  }

  /** The first `k` items are those of `after`, the rest still those of `before`. */
  ghost predicate Upto<T>(k: nat, now: seq<T>, after: seq<T>, before: seq<T>) {
    && |now| == |after| == |before|
    && (forall i :: 0 <= i < k && i < |now| ==> now[i] == after[i])
    && (forall i :: k <= i < |now| ==> now[i] == before[i])
  }

  /** All peers, each with its own block directory. */
  class DistributedCode {
    const cfg: Config
    const ranks: Ranks
    const blocks: seq<BlockDirectory>
    var attrs: seq<Attrs>

    constructor (cfg: Config)
      ensures Valid() && this.cfg == cfg && View() == Fresh(cfg)
      ensures fresh(ranks) && (forall d :: 0 <= d < cfg.p ==> fresh(blocks[d]))
    {
      this.cfg := cfg;
      ranks := new Ranks(cfg);
      var directories := EmptyDirectories(cfg.p);
      blocks := directories;
      attrs := seq(cfg.p, _ => map[]);
    }

    ghost predicate Valid()
      reads this, ranks, blocks
    {
      && ranks.Valid() && ranks.cfg == cfg
      && |blocks| == |attrs| == cfg.p
      && (forall i, j :: 0 <= i < j < cfg.p ==> blocks[i] != blocks[j])
      && (forall d :: 0 <= d < cfg.p ==> StartsInRange(blocks[d].lists, cfg))
    }

    ghost function Dirs(): (dirs: seq<BlockLists>)
      reads this, blocks
      ensures |dirs| == |blocks|
    {
      seq(|blocks|, d requires 0 <= d < |blocks| reads this, blocks => blocks[d].lists)
    }

    ghost function View(): (s: Peers)
      requires Valid()
      reads this, ranks, blocks
      ensures Shaped(s, cfg)
    {
      Peers(ranks.heaps, Dirs(), attrs)
    }

    /** One peer records the gathered addresses, and the size unless it is the source. */
    method RecordOn(d: nat, source: nat, inode: nat, fileSize: nat, addresses: seq<Addr>)
      requires Valid() && d < cfg.p
      modifies this, blocks[d]
      ensures Valid()
      ensures Dirs() == old(Dirs())[d := ListsAfter(old(Dirs())[d], inode, addresses, cfg)]
      ensures attrs == if d == source then old(attrs)
                       else old(attrs)[d := AttrsAfter(old(attrs[d]), old(Dirs())[d], inode, fileSize, addresses, cfg)]
    {
      RecordedInRange(blocks[d].lists, inode, addresses, cfg);
      blocks[d].Record(inode, addresses, cfg);
      if d != source {
        var updated: Attrs := attrs[d][inode := Attr(fileSize, |blocks[d].lists[inode]|)];
        attrs := attrs[d := updated];
      }
      forall i | 0 <= i < cfg.p && i != d ensures blocks[i].lists == old(blocks[i].lists) {
      }
    }

    /** Every peer in turn records them. The source has set its own size before. */
    method RecordOnAll(source: nat, inode: nat, fileSize: nat, addresses: seq<Addr>, ghost before: Peers)
      requires Valid() && before == View() && source < cfg.p
      requires inode in attrs[source] && attrs[source][inode].size == fileSize
      modifies this, blocks
      ensures Valid() && Dirs() == RecordedDirs(before, inode, addresses, cfg)
      ensures var blocks := before.attrs[source][inode].blocks;
              attrs == RecordedAttrs(before, source, inode, fileSize, blocks, addresses, cfg)
    {
      ghost var dirs := RecordedDirs(before, inode, addresses, cfg);
      ghost var own := before.attrs[source][inode];
      ghost var all := RecordedAttrs(before, source, inode, fileSize, own.blocks, addresses, cfg);
      assert before.attrs[source][inode := own] == before.attrs[source];
      for d := 0 to cfg.p
        invariant Valid()
        invariant Upto(d, Dirs(), dirs, before.dirs) && Upto(d, attrs, all, before.attrs)
      {
        RecordOn(d, source, inode, fileSize, addresses);
      }
    }

    /** The distributed write, seen on all ranks: scatter, local stores, allgather of the
        addresses, and every rank's own record of them. */
    method DAGonFSWrite(source: nat, buffer: seq<Byte>, inode: nat, fileSize: nat) returns (addresses: seq<Addr>)
      requires Valid() && source < cfg.p
      requires |buffer| == BlockCount(fileSize, cfg.B) * cfg.B && TransferFits(BlockCount(fileSize, cfg.B), cfg)
      requires inode in attrs[source] && attrs[source][inode].size == fileSize
      requires BlockCount(fileSize, cfg.B) <= attrs[source][inode].blocks
      modifies this, ranks, blocks
      ensures Valid()
      ensures var e := Write(source, inode, fileSize, old(attrs[source][inode].blocks), buffer, addresses);
              Legal(old(View()), e, cfg) && View() == Next(old(View()), e, cfg)
    {
      ghost var before := View();
      addresses := ranks.DistributedStore(buffer, BlockCount(fileSize, cfg.B));
      assert View().dirs == before.dirs && View().attrs == before.attrs;
      RecordOnAll(source, inode, fileSize, addresses, View());
    }

    /** The addresses of a file's first blocks, from the source's own directory. */
    method FindAddresses(source: nat, inode: nat, n: nat) returns (addresses: seq<Addr>)
      requires Valid() && source < cfg.p && HasAddresses(ListOf(blocks[source].lists, inode), n)
      modifies blocks[source]
      ensures Valid() && addresses == AddressesOf(ListOf(old(blocks[source].lists), inode), n)
      ensures View() == Next(old(View()), Fetch(source, inode), cfg)
    {
      addresses := blocks[source].AddressesToScatter(inode, n);
      forall d | 0 <= d < cfg.p && d != source ensures blocks[d].lists == old(blocks[d].lists) {
      }
      assert View().dirs == Next(old(View()), Fetch(source, inode), cfg).dirs;
    }

    /** The distributed read, started by any peer. It leaves every heap, every block list of
        every peer, and all attributes as they were. */
    method DAGonFSRead(source: nat, inode: nat, fileSize: nat, reqSize: nat) returns (readBuff: Option<seq<Byte>>)
      requires Valid() && source < cfg.p && TransferFits(BlockCount(Wanted(fileSize, reqSize), cfg.B), cfg)
      requires fileSize > 0 ==> Readable(View(), source, inode, Wanted(fileSize, reqSize), cfg)
      modifies blocks[source]
      ensures Valid()
      ensures readBuff ==
              ReadResult(ranks.heaps, ListOf(old(blocks[source].lists), inode), fileSize, reqSize, cfg)
      ensures View() == if fileSize == 0 then old(View()) else Next(old(View()), Fetch(source, inode), cfg)
      ensures SameStore(old(View()), View(), cfg)
    {
      FetchKeepsStore(View(), source, inode, cfg);
      if fileSize == 0 {
        return None;
      }
      var n := if reqSize > fileSize then BlockCount(fileSize, cfg.B) else BlockCount(reqSize, cfg.B);
      var addressesToScat := FindAddresses(source, inode, n);
      var buf := ranks.DistributedLoad(addressesToScat, false);
      readBuff := Some(buf);
    }

    /** The load of an opening without truncation, with the size that the peer has. Over every
        history it gets the bytes of the last write, and loses nothing of the history: the next
        load by this or any other peer gets them too. */
    method Load(peer: nat, inode: nat, ghost events: seq<Event>)
      returns (buf: Option<seq<Byte>>, ghost after: seq<Event>)
      requires Valid() && peer < cfg.p && AllLegal(events, cfg) && View() == After(events, cfg)
      requires Untouched(events, peer, inode)
      requires TransferFits(BlockCount(AttrOf(attrs[peer], inode).size, cfg.B), cfg)
      modifies blocks[peer]
      ensures Valid() && AllLegal(after, cfg) && View() == After(after, cfg)
      ensures after == Fetched(events, peer, inode, old(AttrOf(attrs[peer], inode).size)) && SameFiles(events, after)
      ensures var last := LastWrite(events, inode);
              buf == if last.Last? && last.w.size > 0 then Some(last.w.buf) else None
    {
      var size := AttrOf(attrs[peer], inode).size;
      WholeRead(events, peer, inode, cfg);
      FetchedOnce(events, peer, inode, size, cfg);
      after := Fetched(events, peer, inode, size);
      buf := DAGonFSRead(peer, inode, size, size);
    }
  }
}
