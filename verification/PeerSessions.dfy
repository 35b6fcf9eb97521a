/** File sessions of the peer-to-peer version: what one peer writes and flushes, every peer
    finds when it opens the file, and exactly when a session's writes stay in their buffer. */
module PeerSessions {
  import opened Partition
  import opened BlockStore
  import opened Blocks
  import opened Cluster
  import opened FileSession
  import opened PeerStore

  /** One write of a session, and what the allocator left in the memory it got for it. */
  datatype Piece = Piece(off: nat, data: seq<Byte>, junk: seq<Byte>)

  function NewEnd(size: nat, piece: Piece): nat {
    if piece.off + |piece.data| > size then piece.off + |piece.data| else size
  }

  /** Every write starts at or before the end that the file has by then. */
  ghost predicate AtOrBeforeEnd(size: nat, pieces: seq<Piece>)
    decreases |pieces|
  {
    pieces == [] || (pieces[0].off <= size && AtOrBeforeEnd(NewEnd(size, pieces[0]), pieces[1..]))
  }

  /** And copies only into memory that the buffer has by then. */
  ghost predicate SessionFits(f: FileData, pieces: seq<Piece>, B: nat)
    requires B > 0
    decreases |pieces|
  {
    pieces == [] ||
    (&& pieces[0].off <= f.size && InBounds(f, pieces[0].off + |pieces[0].data|, B)
     && SessionFits(WriteFile(f, pieces[0].off, pieces[0].data, pieces[0].junk, B), pieces[1..], B))
  }

  /** The file after all writes of a session. */
  ghost function WriteAll(f: FileData, pieces: seq<Piece>, B: nat): FileData
    requires B > 0 && SessionFits(f, pieces, B)
    decreases |pieces|
  {
    if pieces == [] then f
    else WriteAll(WriteFile(f, pieces[0].off, pieces[0].data, pieces[0].junk, B), pieces[1..], B)
  }

  /** The contents after all writes of a session. */
  ghost function SpliceAll(c: seq<Byte>, pieces: seq<Piece>): seq<Byte>
    requires AtOrBeforeEnd(|c|, pieces)
    decreases |pieces|
  {
    if pieces == [] then c else SpliceAll(Splice(c, pieces[0].off, pieces[0].data), pieces[1..])
  }

  /** One write of a session. */
  lemma OneWrite(f: FileData, piece: Piece, B: nat)
    requires B > 0 && Covered(f, B) && piece.off <= f.size && InBounds(f, piece.off + |piece.data|, B)
    ensures f.size <= Capacity(f) && |Content(f)| == f.size
    ensures var g := WriteFile(f, piece.off, piece.data, piece.junk, B);
            && Covered(g, B) && g.size == NewEnd(f.size, piece) <= Capacity(g)
            && Content(g) == Splice(Content(f), piece.off, piece.data)
            && (f.blocks == BlockCount(f.size, B) ==> g.blocks == BlockCount(g.size, B))
  {
    CoveredCapacity(f, B);
    WriteKeepsCovered(f, piece.off, piece.data, piece.junk, B);
    WriteOverlaysContent(f, piece.off, piece.data, piece.junk, B);
    CoveredCapacity(WriteFile(f, piece.off, piece.data, piece.junk, B), B);
  }

  /** A session that fits splices its writes into the contents, and keeps a right block count right. */
  lemma {:induction false} WriteAllContent(f: FileData, pieces: seq<Piece>, B: nat)
    requires B > 0 && Covered(f, B) && SessionFits(f, pieces, B)
    ensures f.size <= Capacity(f) && |Content(f)| == f.size && AtOrBeforeEnd(f.size, pieces)
    ensures var g := WriteAll(f, pieces, B);
            && Covered(g, B) && g.size <= Capacity(g)
            && Content(g) == SpliceAll(Content(f), pieces)
            && (f.blocks == BlockCount(f.size, B) ==> g.blocks == BlockCount(g.size, B))
    decreases |pieces|
  {
    if pieces == [] {
      CoveredCapacity(f, B);
    } else {
      OneWrite(f, pieces[0], B);
      WriteAllContent(WriteFile(f, pieces[0].off, pieces[0].data, pieces[0].junk, B), pieces[1..], B);
    }
  }

  lemma {:induction false} InvSessionFits(f: FileData, pieces: seq<Piece>, B: nat)
    requires B > 0 && BufferInv(f, B) && AtOrBeforeEnd(f.size, pieces)
    ensures SessionFits(f, pieces, B)
    decreases |pieces|
  {
    if pieces != [] {
      WriteKeepsBufferInv(f, pieces[0].off, pieces[0].data, pieces[0].junk, B);
      InvSessionFits(WriteFile(f, pieces[0].off, pieces[0].data, pieces[0].junk, B), pieces[1..], B);
    }
  }

  /** Every session on a covered file fits precisely when its block count is right. */
  lemma EverySessionFitsIff(f: FileData, B: nat)
    requires B > 0 && Covered(f, B)
    ensures (forall pieces :: AtOrBeforeEnd(f.size, pieces) ==> SessionFits(f, pieces, B)) <==> BufferInv(f, B)
  {
    if BufferInv(f, B) {
      forall pieces | AtOrBeforeEnd(f.size, pieces) ensures SessionFits(f, pieces, B) {
        InvSessionFits(f, pieces, B);
      }
    } else {
      CoveredCapacity(f, B);
      OverrunDoesNotFit(f, B);
    }
  }

  /** One write of all that is left of the buffer and one byte more. */
  lemma OverrunDoesNotFit(f: FileData, B: nat)
    requires B > 0 && Covered(f, B) && !BufferInv(f, B) && f.size <= Capacity(f)
    ensures !(forall pieces :: AtOrBeforeEnd(f.size, pieces) ==> SessionFits(f, pieces, B))
  {
    var piece := Piece(f.size, seq(Capacity(f) + 1 - f.size, _ => 0), []);
    InvIsCovered(f, B);
    CoveredCapacity(f, B);
    ProductOrder(BlockCount(f.size, B), f.blocks, B);
    assert B * f.blocks == f.blocks * B;
    assert [piece][1..] == [] && AtOrBeforeEnd(f.size, [piece]) && !SessionFits(f, [piece], B);
  }

  // ---- openings ----

  /** A file as a peer has it right after opening it without truncation. */
  ghost function Opened(s: Peers, peer: nat, inode: nat, cfg: Config): FileData
    requires Shaped(s, cfg) && peer < cfg.p
  {
    var attr := AttrOf(s.attrs[peer], inode);
    FileData(attr.size, attr.blocks,
             if Readable(s, peer, inode, attr.size, cfg) then Read(s, peer, inode, attr.size, cfg) else None,
             false)
  }

  /** The bytes of an inode: those of its last flush. */
  ghost function LastContent(events: seq<Event>, inode: nat, cfg: Config): seq<Byte>
    requires AllLegal(events, cfg)
  {
    match LastWrite(events, inode)
    case Never => []
    case Last(w) => if w.size <= |w.buf| then w.buf[..w.size] else []
  }

  lemma NothingReadable(s: Peers, peer: nat, inode: nat, cfg: Config)
    requires Shaped(s, cfg) && peer < cfg.p
    ensures Readable(s, peer, inode, 0, cfg)
  {
    forall r: nat | r < cfg.p ensures |PartOf(AddressesOf(ListOf(s.dirs[peer], inode), 0), 0, cfg, 1, r)| == 0 {
      PartIndex(AddressesOf(ListOf(s.dirs[peer], inode), 0), 0, cfg, 1, r);
    }
  }

  /** The buffer of an opened file: the last write's, or none if that was empty. */
  lemma OpenReads(events: seq<Event>, peer: nat, inode: nat, cfg: Config)
    requires AllLegal(events, cfg) && peer < cfg.p && Untouched(events, peer, inode)
    ensures var s, last := After(events, cfg), LastWrite(events, inode);
            var f := Opened(s, peer, inode, cfg);
            && Readable(s, peer, inode, f.size, cfg)
            && f.size == (if last.Last? then last.w.size else 0)
            && f.buf == if f.size > 0 then Some(last.w.buf) else None
  {
    SizeOfLastWrite(events, peer, inode, cfg);
    if LastWrite(events, inode).Last? {
      AnyPeerReadsLastWrite(events, peer, inode, cfg);
    } else {
      NothingReadable(After(events, cfg), peer, inode, cfg);
    }
  }

  lemma LastBufferLength(events: seq<Event>, inode: nat, cfg: Config)
    requires AllLegal(events, cfg) && LastWrite(events, inode).Last?
    ensures var w := LastWrite(events, inode).w;
            |w.buf| == BlockCount(w.size, cfg.B) * cfg.B && w.size <= |w.buf|
  {
    LastWriteBacked(events, inode, cfg);
  }

  /** What an opening finds on any peer: the last flushed bytes, in a buffer that covers them. */
  lemma OpenFinds(events: seq<Event>, peer: nat, inode: nat, cfg: Config)
    requires AllLegal(events, cfg) && peer < cfg.p && Untouched(events, peer, inode)
    ensures var f := Opened(After(events, cfg), peer, inode, cfg);
            && Covered(f, cfg.B)
            && (f.buf.Some? ==> f.size <= |f.buf.value|)
            && Content(f) == LastContent(events, inode, cfg)
  {
    OpenReads(events, peer, inode, cfg);
    BlockCountRightIff(events, peer, inode, cfg);
    if LastWrite(events, inode).Last? { LastBufferLength(events, inode, cfg); }
  }

  /** Over every history, the file that a peer opens has the buffer invariant, every write to
      it stays in bounds, and every session on it fits, precisely when the history is right:
      the peer made the last write with a right count, or no write was ever longer. */
  lemma OpenSafeIff(events: seq<Event>, peer: nat, inode: nat, cfg: Config)
    requires AllLegal(events, cfg) && peer < cfg.p && Untouched(events, peer, inode)
    ensures var f := Opened(After(events, cfg), peer, inode, cfg);
            && (BufferInv(f, cfg.B) <==> RightHistory(events, peer, inode))
            && ((forall newSize: nat :: InBounds(f, newSize, cfg.B)) <==> RightHistory(events, peer, inode))
            && ((forall pieces :: AtOrBeforeEnd(f.size, pieces) ==> SessionFits(f, pieces, cfg.B))
                <==> RightHistory(events, peer, inode))
  {
    var f := Opened(After(events, cfg), peer, inode, cfg);
    OpenFinds(events, peer, inode, cfg);
    BlockCountRightIff(events, peer, inode, cfg);
    InvIsCovered(f, cfg.B);
    AllInBoundsIff(f, cfg.B);
    EverySessionFitsIff(f, cfg.B);
  }

  /** A peer that has truncated the inode since its last write starts with nothing, safely. */
  lemma {:induction false} TruncatedIsEmpty(events: seq<Event>, peer: nat, inode: nat, cfg: Config)
    requires AllLegal(events, cfg) && peer < cfg.p && !Untouched(events, peer, inode)
    ensures AttrOf(After(events, cfg).attrs[peer], inode) == Attr(0, 0)
  {
    var front, e := events[..|events| - 1], events[|events| - 1];
    if e.inode != inode || e.Fetch? || (e.Truncate? && e.peer != peer) {
      TruncatedIsEmpty(front, peer, inode, cfg);
    }
  }

  // ---- sessions ----

  /** A flush makes the buffer's contents what every peer finds from then on. */
  lemma FlushSeenEverywhere(events: seq<Event>, source: nat, inode: nat, f: FileData,
                            addrs: seq<Addr>, root: nat, cfg: Config)
    requires AllLegal(events, cfg) && source < cfg.p && root < cfg.p
    requires Covered(f, cfg.B) && f.buf.Some?
    requires |addrs| == BlockCount(f.size, cfg.B) && FreshEverywhere(After(events, cfg).heaps, addrs, cfg)
    ensures f.size <= |f.buf.value|
    ensures var next := events + [Write(source, inode, f.size, f.blocks, f.buf.value, addrs)];
            && AllLegal(next, cfg) && Untouched(next, root, inode)
            && LastContent(next, inode, cfg) == Content(f)
  {
    var e := Write(source, inode, f.size, f.blocks, f.buf.value, addrs);
    CoveredCapacity(f, cfg.B);
    assert (events + [e])[..|events|] == events;
  }

  /** Close to open: a session on one peer, from an opening to its flush, and then an opening
      on any peer, which finds the earlier contents with the session's writes spliced in. The
      session must fit its buffer; with a right history every session does. */
  lemma CloseToOpen(events: seq<Event>, source: nat, inode: nat, pieces: seq<Piece>, f: FileData,
                    addrs: seq<Addr>, root: nat, cfg: Config)
    requires AllLegal(events, cfg) && source < cfg.p && root < cfg.p && Untouched(events, source, inode)
    requires SessionFits(Opened(After(events, cfg), source, inode, cfg), pieces, cfg.B)
    requires f == WriteAll(Opened(After(events, cfg), source, inode, cfg), pieces, cfg.B) && f.buf.Some?
    requires |addrs| == BlockCount(f.size, cfg.B) && FreshEverywhere(After(events, cfg).heaps, addrs, cfg)
    ensures AtOrBeforeEnd(|LastContent(events, inode, cfg)|, pieces)
    ensures var next := events + [Write(source, inode, f.size, f.blocks, f.buf.value, addrs)];
            && AllLegal(next, cfg) && Untouched(next, root, inode)
            && LastContent(next, inode, cfg) == SpliceAll(LastContent(events, inode, cfg), pieces)
            && (RightHistory(events, source, inode) ==> RightHistory(next, source, inode))
  {
    var start := Opened(After(events, cfg), source, inode, cfg);
    OpenFinds(events, source, inode, cfg);
    WriteAllContent(start, pieces, cfg.B);
    FlushSeenEverywhere(events, source, inode, f, addrs, root, cfg);
    BlockCountRightIff(events, source, inode, cfg);
  }

  lemma RightSessionFits(events: seq<Event>, peer: nat, inode: nat, pieces: seq<Piece>, cfg: Config)
    requires AllLegal(events, cfg) && peer < cfg.p && Untouched(events, peer, inode)
    requires RightHistory(events, peer, inode)
    requires AtOrBeforeEnd(Opened(After(events, cfg), peer, inode, cfg).size, pieces)
    ensures SessionFits(Opened(After(events, cfg), peer, inode, cfg), pieces, cfg.B)
  {
    var f := Opened(After(events, cfg), peer, inode, cfg);
    OpenFinds(events, peer, inode, cfg);
    BlockCountRightIff(events, peer, inode, cfg);
    InvIsCovered(f, cfg.B);
    InvSessionFits(f, pieces, cfg.B);
  }

  /** With a right history the only thing asked of a session is that each write starts at or
      before the end, and the history stays right. */
  lemma CloseToOpenRightHistory(events: seq<Event>, source: nat, inode: nat, pieces: seq<Piece>,
                                addrs: seq<Addr>, root: nat, cfg: Config)
    requires AllLegal(events, cfg) && source < cfg.p && root < cfg.p && Untouched(events, source, inode)
    requires RightHistory(events, source, inode)
    requires AtOrBeforeEnd(Opened(After(events, cfg), source, inode, cfg).size, pieces)
    requires FreshEverywhere(After(events, cfg).heaps, addrs, cfg)
    ensures SessionFits(Opened(After(events, cfg), source, inode, cfg), pieces, cfg.B)
    ensures AtOrBeforeEnd(|LastContent(events, inode, cfg)|, pieces)
    ensures var f := WriteAll(Opened(After(events, cfg), source, inode, cfg), pieces, cfg.B);
            f.buf.Some? && |addrs| == BlockCount(f.size, cfg.B) ==>
              var next := events + [Write(source, inode, f.size, f.blocks, f.buf.value, addrs)];
              && AllLegal(next, cfg) && Untouched(next, root, inode)
              && LastContent(next, inode, cfg) == SpliceAll(LastContent(events, inode, cfg), pieces)
              && RightHistory(next, source, inode)
  {
    RightSessionFits(events, source, inode, pieces, cfg);
    OpenFinds(events, source, inode, cfg);
    WriteAllContent(Opened(After(events, cfg), source, inode, cfg), pieces, cfg.B);
    var f := WriteAll(Opened(After(events, cfg), source, inode, cfg), pieces, cfg.B);
    if f.buf.Some? && |addrs| == BlockCount(f.size, cfg.B) {
      CloseToOpen(events, source, inode, pieces, f, addrs, root, cfg);
    }
  }

  lemma OneMore(events: seq<Event>, e: Event, cfg: Config)
    requires AllLegal(events, cfg) && Legal(After(events, cfg), e, cfg)
    ensures AllLegal(events + [e], cfg)
    ensures After(events + [e], cfg) == Next(After(events, cfg), e, cfg)
  {
    assert (events + [e])[..|events|] == events;
  }

  /** A truncating opening leaves every heap as it was. */
  lemma TruncationIsLocal(events: seq<Event>, peer: nat, inode: nat, cfg: Config)
    requires AllLegal(events, cfg) && peer < cfg.p
    ensures AllLegal(events + [Truncate(peer, inode)], cfg)
    ensures After(events + [Truncate(peer, inode)], cfg).heaps == After(events, cfg).heaps
  {
    OneMore(events, Truncate(peer, inode), cfg);
  }

  lemma EmptyInv(B: nat)
    requires B > 0
    ensures BufferInv(EmptyFile, B) && Covered(EmptyFile, B)
  {
  }

  /** The same after an opening that truncates: the earlier contents play no part, and every
      session fits, whatever the history. */
  lemma TruncatingCloseToOpen(events: seq<Event>, source: nat, inode: nat, pieces: seq<Piece>,
                              addrs: seq<Addr>, root: nat, cfg: Config)
    requires AllLegal(events, cfg) && source < cfg.p && root < cfg.p && AtOrBeforeEnd(0, pieces)
    requires FreshEverywhere(After(events, cfg).heaps, addrs, cfg)
    ensures SessionFits(EmptyFile, pieces, cfg.B)
    ensures var f := WriteAll(EmptyFile, pieces, cfg.B);
            f.buf.Some? && |addrs| == BlockCount(f.size, cfg.B) ==>
              var store := Write(source, inode, f.size, f.blocks, f.buf.value, addrs);
              var next := events + [Truncate(source, inode)] + [store];
              && AllLegal(next, cfg) && Untouched(next, root, inode)
              && LastContent(next, inode, cfg) == SpliceAll([], pieces)
  {
    EmptyInv(cfg.B);
    InvSessionFits(EmptyFile, pieces, cfg.B);
    WriteAllContent(EmptyFile, pieces, cfg.B);
    TruncationIsLocal(events, source, inode, cfg);
    var f := WriteAll(EmptyFile, pieces, cfg.B);
    if f.buf.Some? && |addrs| == BlockCount(f.size, cfg.B) {
      FlushSeenEverywhere(events + [Truncate(source, inode)], source, inode, f, addrs, root, cfg);
    }
  }

  // ---- a history that goes wrong ----

  /** Rank 0 writes `n` full blocks. */
  lemma FullBlocks(events: seq<Event>, n: nat, inode: nat, cfg: Config) returns (e: Event)
    requires AllLegal(events, cfg)
    ensures e.Write? && e.source == 0 && e.inode == inode && e.size == n * cfg.B && |e.addrs| == n == e.blocks
    ensures AllLegal(events + [e], cfg)
  {
    var addrs := FreshAddresses(After(events, cfg).heaps, n, cfg);
    BlockCountUnique(n * cfg.B, cfg.B, n);
    e := Write(0, inode, n * cfg.B, n, seq(n * cfg.B, _ => 0), addrs);
    OneMore(events, e, cfg);
  }

  /** A truncation by rank 0, or a new file with the same inode number. */
  predicate Shrinks(e: Event, inode: nat) { e == Truncate(0, inode) || e == Made(inode) }

  lemma Shrunk(events: seq<Event>, shrink: Event, inode: nat, cfg: Config)
    requires AllLegal(events, cfg) && Shrinks(shrink, inode)
    ensures AllLegal(events + [shrink], cfg)
  {
    OneMore(events, shrink, cfg);
  }

  /** One block behind a longest write of two. */
  lemma ShortBuffer(events: seq<Event>, inode: nat, cfg: Config)
    requires cfg.p >= 2 && AllLegal(events, cfg) && Untouched(events, 1, inode)
    requires LastWrite(events, inode).Last? && LastWrite(events, inode).w.source == 0
    requires LastWrite(events, inode).w.size == 1 * cfg.B && MaxBlocks(WritesTo(events, inode)) == 2
    ensures var f := Opened(After(events, cfg), 1, inode, cfg);
            f.size == cfg.B && f.blocks == 2 && !InBounds(f, cfg.B + 1, cfg.B)
  {
    OpenReads(events, 1, inode, cfg);
    BlocksOfLastWrite(events, 1, inode, cfg);
    LastBufferLength(events, inode, cfg);
    BlockCountUnique(cfg.B, cfg.B, 1);
  }

  /** Two blocks written by rank 0, then a truncation or a new file with the same inode number,
      then one block by rank 0: on rank 1 the file now has one block of buffer and a block
      count of two, and one byte more is out of bounds. */
  lemma ShrunkFileOverruns(inode: nat, shrink: Event, cfg: Config) returns (events: seq<Event>)
    requires cfg.p >= 2 && Shrinks(shrink, inode)
    ensures |events| == 3 && events[1] == shrink
    ensures AllLegal(events, cfg) && Untouched(events, 1, inode)
    ensures !RightHistory(events, 1, inode)
    ensures var f := Opened(After(events, cfg), 1, inode, cfg);
            f.size == cfg.B && f.blocks == 2 && !InBounds(f, cfg.B + 1, cfg.B)
  {
    var two := FullBlocks([], 2, inode, cfg);
    assert [] + [two] == [two];
    Shrunk([two], shrink, inode, cfg);
    var before := [two] + [shrink];
    var one := FullBlocks(before, 1, inode, cfg);
    events := before + [one];
    ShrunkHistory(two, shrink, one, inode);
    ShortBuffer(events, inode, cfg);
  }

  lemma WritesToMore(events: seq<Event>, e: Event, inode: nat)
    ensures WritesTo(events + [e], inode)
            == WritesTo(events, inode) + (if e.Write? && e.inode == inode then [e.addrs] else [])
  {
    assert (events + [e])[..|events|] == events;
  }

  lemma ShrunkHistory(two: Event, shrink: Event, one: Event, inode: nat)
    requires Shrinks(shrink, inode)
    requires two.Write? && two.inode == inode && |two.addrs| == 2
    requires one.Write? && one.inode == inode && |one.addrs| == 1 && one.source == 0
    ensures var events := [two] + [shrink] + [one];
            && LastWrite(events, inode) == Last(one) && Untouched(events, 1, inode)
            && WritesTo(events, inode) == [two.addrs, one.addrs]
            && MaxBlocks(WritesTo(events, inode)) == 2 && !RightHistory(events, 1, inode)
  {
    var events := [two] + [shrink] + [one];
    assert [] + [two] == [two];
    WritesToMore([], two, inode);
    WritesToMore([two], shrink, inode);
    WritesToMore([two] + [shrink], one, inode);
    assert events[|events| - 1] == one;
    TwoWrites(two.addrs, one.addrs);
    assert WritesTo(events, inode)[0] == two.addrs;
  }

  lemma TwoWrites(two: seq<Addr>, one: seq<Addr>)
    requires |two| == 2 && |one| == 1
    ensures MaxBlocks([two, one]) == 2
  {
    assert [two, one][..1] == [two] && [two][..0] == [];
    assert MaxBlocks([two]) == 2;
  }
}
