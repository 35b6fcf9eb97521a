/** The file handlers of the peers as the program runs them: sizes, block counts and buffers
    updated in place over the shared block store, and whole sessions of a peer. */
module PeerHandlers {
  import opened Partition
  import opened BlockStore
  import opened Blocks
  import opened Cluster
  import opened FileSession
  import opened PeerStore
  import opened PeerSessions

  /** The buffer of an open file, and whether a flush must write. */
  datatype Buffer = Buffer(bytes: Option<seq<Byte>>, waiting: bool)

  type Buffers = map<nat, Buffer>

  const NoBuffer: Buffer := Buffer(None, false)

  function BufferOf(buffers: Buffers, inode: nat): Buffer {
    if inode in buffers then buffers[inode] else NoBuffer
  }

  /** The same peers, but for the attributes of one inode on one of them. */
  ghost predicate Disturbed(s: Peers, now: Peers, d: nat, inode: nat, cfg: Config)
    requires Shaped(s, cfg) && Shaped(now, cfg) && d < cfg.p
  {
    && now.heaps == s.heaps && now.dirs == s.dirs
    && now.attrs == s.attrs[d := now.attrs[d]]
    && (now.attrs[d] == s.attrs[d] || now.attrs[d] == s.attrs[d][inode := AttrOf(now.attrs[d], inode)])
  }

  /** A flush leaves the same as if nothing had been disturbed. */
  lemma FlushSettles(s: Peers, now: Peers, e: Event, cfg: Config)
    requires Shaped(s, cfg) && Shaped(now, cfg) && e.Write? && e.source < cfg.p
    requires Disturbed(s, now, e.source, e.inode, cfg) && Legal(now, e, cfg)
    ensures Legal(s, e, cfg) && Next(now, e, cfg) == Next(s, e, cfg)
  {
    forall d | 0 <= d < cfg.p ensures Next(now, e, cfg).attrs[d] == Next(s, e, cfg).attrs[d] {
      if d != e.source { assert now.attrs[d] == s.attrs[d]; }
    }
  }

  lemma DisturbedTwice(s: Peers, a: Peers, b: Peers, d: nat, inode: nat, cfg: Config)
    requires Shaped(s, cfg) && Shaped(a, cfg) && Shaped(b, cfg) && d < cfg.p
    requires Disturbed(s, a, d, inode, cfg) && Disturbed(a, b, d, inode, cfg)
    ensures Disturbed(s, b, d, inode, cfg)
  {
  }

  /** Inside a session the buffer holds the contents, and there is none for an empty file. */
  ghost predicate Holds(f: FileData, c: seq<Byte>, B: nat)
    requires B > 0
  {
    && BufferInv(f, B) && f.size == |c| <= Capacity(f)
    && Content(f) == c && (c == [] ==> f.buf.None?)
  }

  lemma WriteHolds(f: FileData, c: seq<Byte>, piece: Piece, junk: seq<Byte>, B: nat)
    requires B > 0 && Holds(f, c, B) && piece.off <= |c|
    ensures InBounds(f, piece.off + |piece.data|, B)
    ensures var g := WriteFile(f, piece.off, piece.data, junk, B);
            g.waiting && Holds(g, Splice(c, piece.off, piece.data), B)
  {
    InvInBounds(f, piece.off + |piece.data|, B);
    WriteUnderInv(f, piece.off, piece.data, junk, B);
    CoveredCapacity(WriteFile(f, piece.off, piece.data, junk, B), B);
  }

  /** A flush is what everybody finds from then on. */
  lemma Flushed(events: seq<Event>, e: Event, c: seq<Byte>, cfg: Config)
    requires AllLegal(events + [e], cfg) && e.Write?
    requires e.size == |c| <= |e.buf| && e.buf[..e.size] == c && e.blocks == |e.addrs|
    ensures LastContent(events + [e], e.inode, cfg) == c && RightHistory(events + [e], e.source, e.inode)
    ensures forall root: nat :: Untouched(events + [e], root, e.inode)
  {
    assert (events + [e])[..|events|] == events;
  }

  lemma PassedBy(events: seq<Event>, e: Event, inode: nat)
    requires Passes(e, inode)
    ensures LastWrite(events + [e], inode) == LastWrite(events, inode)
  {
    assert (events + [e])[..|events|] == events;
  }

  class Handlers {
    const store: DistributedCode
    var buffers: seq<Buffers>

    constructor (cfg: Config)
      ensures Valid() && store.cfg == cfg && store.View() == Fresh(cfg)
      ensures forall d, i :: 0 <= d < cfg.p ==> BufferOf(buffers[d], i) == NoBuffer
    {
      store := new DistributedCode(cfg);
      buffers := seq(cfg.p, _ => map[]);
    }

    ghost predicate Valid()
      reads this, store, store.ranks, store.blocks
    {
      store.Valid() && |buffers| == store.cfg.p
    }

    /** A file as peer `d` has it. */
    function FileOf(d: nat, inode: nat): FileData
      requires d < |store.attrs| && d < |buffers|
      reads this, store
    {
      var attr, buffer := AttrOf(store.attrs[d], inode), BufferOf(buffers[d], inode);
      FileData(attr.size, attr.blocks, buffer.bytes, buffer.waiting)
    }

    /** The buffers of all other files, and of all other peers, are as before. */
    twostate predicate OtherBuffers(d: nat, inode: nat)
      reads this
    {
      && |buffers| == |old(buffers)|
      && forall e: nat, i: nat :: e < |buffers| && (e, i) != (d, inode) ==>
           BufferOf(buffers[e], i) == old(BufferOf(buffers[e], i))
    }

    method SetAttr(d: nat, inode: nat, attr: Attr)
      requires Valid() && d < store.cfg.p
      modifies store`attrs
      ensures Valid() && store.attrs == old(store.attrs)[d := store.attrs[d]]
      ensures store.attrs[d] == old(store.attrs[d])[inode := attr]
    {
      var updated: Attrs := store.attrs[d][inode := attr];
      store.attrs := store.attrs[d := updated];
    }

    method SetBuffer(d: nat, inode: nat, buffer: Buffer)
      requires Valid() && d < store.cfg.p
      modifies this`buffers
      ensures OtherBuffers(d, inode)
      ensures Valid() && buffers == old(buffers)[d := buffers[d]]
      ensures buffers[d] == old(buffers[d])[inode := buffer]
    {
      var updated: Buffers := buffers[d][inode := buffer];
      buffers := buffers[d := updated];
    }

    /** A truncating opening empties the file on this peer alone; any other loads it. */
    method FuseOpen(d: nat, inode: nat, truncates: bool, ghost events: seq<Event>) returns (ghost after: seq<Event>)
      requires Valid() && d < store.cfg.p && AllLegal(events, store.cfg) && store.View() == After(events, store.cfg)
      requires !truncates ==> Untouched(events, d, inode)
      requires TransferFits(BlockCount(FileOf(d, inode).size, store.cfg.B), store.cfg)
      requires BufferOf(buffers[d], inode) == NoBuffer
      modifies this`buffers, store`attrs, store.blocks[d]
      ensures OtherBuffers(d, inode)
      ensures Valid() && AllLegal(after, store.cfg) && store.View() == After(after, store.cfg)
      ensures after == if truncates then events + [Truncate(d, inode)]
                       else Fetched(events, d, inode, old(FileOf(d, inode).size))
      ensures FileOf(d, inode) == if truncates then EmptyFile else Opened(old(store.View()), d, inode, store.cfg)
    {
      if truncates {
        SetAttr(d, inode, Attr(0, 0));
        OneMore(events, Truncate(d, inode), store.cfg);
        after := events + [Truncate(d, inode)];
      } else {
        OpenReads(events, d, inode, store.cfg);
        var buf;
        buf, after := store.Load(d, inode, events);
        SetBuffer(d, inode, Buffer(buf, false));
      }
    }

    /** A write that lands beyond the capacity makes the buffer larger. */
    method Grow(d: nat, inode: nat, newSize: nat) returns (ghost junk: seq<Byte>)
      requires Valid() && d < store.cfg.p
      modifies this`buffers, store`attrs
      ensures OtherBuffers(d, inode)
      ensures Valid() && FileOf(d, inode) == GrowFile(old(FileOf(d, inode)), newSize, junk, store.cfg.B)
      ensures newSize == 0 ==> store.View() == old(store.View())
      ensures Disturbed(old(store.View()), store.View(), d, inode, store.cfg)
    {
      junk := [];
      var attr, buffer := AttrOf(store.attrs[d], inode), BufferOf(buffers[d], inode);
      if newSize > store.cfg.B * attr.blocks {
        var newBlocks := BlockCount(newSize, store.cfg.B);
        var left: seq<Byte> := *;
        junk := left;
        SetBuffer(d, inode, buffer.(bytes := Some(Realloc(buffer.bytes, newBlocks * store.cfg.B, left))));
        SetAttr(d, inode, attr.(blocks := newBlocks));
      }
    }

    method FuseWrite(d: nat, inode: nat, off: nat, data: seq<Byte>) returns (written: nat, ghost junk: seq<Byte>)
      requires Valid() && d < store.cfg.p && InBounds(FileOf(d, inode), off + |data|, store.cfg.B)
      modifies this`buffers, store`attrs
      ensures OtherBuffers(d, inode)
      ensures Valid() && written == |data|
      ensures FileOf(d, inode) == WriteFile(old(FileOf(d, inode)), off, data, junk, store.cfg.B)
      ensures Disturbed(old(store.View()), store.View(), d, inode, store.cfg)
      ensures off + |data| == 0 ==> store.View() == old(store.View())
    {
      ghost var before := store.View();
      junk := Grow(d, inode, off + |data|);
      ghost var grown := store.View();
      CopyIn(d, inode, off, data);
      DisturbedTwice(before, grown, store.View(), d, inode, store.cfg);
      written := |data|;
    }

    /** Marks the file as waiting, copies the data in, and moves the end. */
    method CopyIn(d: nat, inode: nat, off: nat, data: seq<Byte>)
      requires Valid() && d < store.cfg.p
      requires FileOf(d, inode).buf.Some? ==> off + |data| <= Capacity(FileOf(d, inode))
      modifies this`buffers, store`attrs
      ensures OtherBuffers(d, inode)
      ensures Valid() && Disturbed(old(store.View()), store.View(), d, inode, store.cfg)
      ensures off + |data| == 0 ==> store.View() == old(store.View())
      ensures var g := old(FileOf(d, inode));
              FileOf(d, inode) ==
              g.(waiting := true,
                 buf := if g.buf.Some? then Some(Overlay(g.buf.value, off, data)) else None,
                 size := if off + |data| > g.size then off + |data| else g.size)
    {
      var buffer := BufferOf(buffers[d], inode);
      var bytes := if buffer.bytes.Some? then Some(Overlay(buffer.bytes.value, off, data)) else None;
      SetBuffer(d, inode, Buffer(bytes, true));
      var attr := AttrOf(store.attrs[d], inode);
      if off + |data| > attr.size {
        SetAttr(d, inode, attr.(size := off + |data|));
      }
    }

    /** Writes the buffer back if something was written, and frees it. */
    method FuseFlush(d: nat, inode: nat) returns (ghost addrs: seq<Addr>)
      requires Valid() && d < store.cfg.p
      requires var f := FileOf(d, inode);
               f.buf.Some? && f.waiting ==>
                 && inode in store.attrs[d]
                 && |f.buf.value| == BlockCount(f.size, store.cfg.B) * store.cfg.B
                 && BlockCount(f.size, store.cfg.B) <= f.blocks
                 && TransferFits(BlockCount(f.size, store.cfg.B), store.cfg)
      modifies this`buffers, store, store.ranks, store.blocks
      ensures OtherBuffers(d, inode)
      ensures Valid()
      ensures BufferOf(buffers[d], inode)
              == if old(BufferOf(buffers[d], inode)).bytes.Some? then NoBuffer else old(BufferOf(buffers[d], inode))
      ensures var f := old(FileOf(d, inode));
              if f.buf.Some? && f.waiting then
                var e := Write(d, inode, f.size, f.blocks, f.buf.value, addrs);
                Legal(old(store.View()), e, store.cfg) && store.View() == Next(old(store.View()), e, store.cfg)
              else store.View() == old(store.View())
    {
      addrs := [];
      var buffer := BufferOf(buffers[d], inode);
      if buffer.bytes.Some? {
        if buffer.waiting {
          addrs := store.DAGonFSWrite(d, buffer.bytes.value, inode, AttrOf(store.attrs[d], inode).size);
        }
        SetBuffer(d, inode, NoBuffer);
      }
    }

    /** Frees the buffer; what has been written and not flushed is lost. */
    method FuseRelease(d: nat, inode: nat)
      requires Valid() && d < store.cfg.p
      modifies this`buffers
      ensures OtherBuffers(d, inode)
      ensures Valid() && BufferOf(buffers[d], inode) == old(BufferOf(buffers[d], inode)).(bytes := None)
    {
      var buffer := BufferOf(buffers[d], inode);
      if buffer.bytes.Some? {
        SetBuffer(d, inode, buffer.(bytes := None));
      }
    }

    method FuseRead(d: nat, inode: nat, off: nat, size: nat) returns (bytes: seq<Byte>)
      requires Valid() && d < store.cfg.p
      requires BufferInv(FileOf(d, inode), store.cfg.B) && off <= FileOf(d, inode).size
      ensures FileOf(d, inode).size <= Capacity(FileOf(d, inode))
      ensures bytes == Slice(Content(FileOf(d, inode)), off, size)
    {
      InvIsCovered(FileOf(d, inode), store.cfg.B);
      CoveredCapacity(FileOf(d, inode), store.cfg.B);
      var end := AttrOf(store.attrs[d], inode).size;
      var bytesRead := if off + size > end then end - off else size;
      var buffer := BufferOf(buffers[d], inode);
      bytes := if buffer.bytes.Some? then buffer.bytes.value[off..off + bytesRead] else [];
    }

    // ---- whole sessions ----

    /** What the writes of a session start from. */
    ghost function StartOf(events: seq<Event>, inode: nat, truncates: bool): seq<Byte>
      requires AllLegal(events, store.cfg)
    {
      if truncates then [] else LastContent(events, inode, store.cfg)
    }

    /** A session can begin: nothing is open, and its buffer will be safe. */
    ghost predicate MayOpen(d: nat, inode: nat, truncates: bool, events: seq<Event>)
      reads this, store, store.ranks, store.blocks
    {
      && Valid() && d < store.cfg.p && BufferOf(buffers[d], inode) == NoBuffer
      && AllLegal(events, store.cfg) && store.View() == After(events, store.cfg)
      && TransferFits(BlockCount(FileOf(d, inode).size, store.cfg.B), store.cfg)
      && (!truncates ==> Untouched(events, d, inode) && RightHistory(events, d, inode))
    }

    /** The opening of a session. */
    method Open(d: nat, inode: nat, truncates: bool, ghost events: seq<Event>) returns (ghost after: seq<Event>)
      requires MayOpen(d, inode, truncates, events)
      modifies this`buffers, store`attrs, store.blocks[d]
      ensures OtherBuffers(d, inode)
      ensures Valid() && AllLegal(after, store.cfg) && store.View() == After(after, store.cfg)
      ensures Holds(FileOf(d, inode), StartOf(events, inode, truncates), store.cfg.B)
      ensures !FileOf(d, inode).waiting
      ensures LastWrite(after, inode) == LastWrite(events, inode)
    {
      if truncates {
        PassedBy(events, Truncate(d, inode), inode);
      } else {
        OpenFinds(events, d, inode, store.cfg);
        OpenSafeIff(events, d, inode, store.cfg);
        OpenReads(events, d, inode, store.cfg);
        PassedBy(events, Fetch(d, inode), inode);
      }
      after := FuseOpen(d, inode, truncates, events);
    }

    /** One write of a session. */
    method WritePiece(d: nat, inode: nat, piece: Piece, ghost c: seq<Byte>, ghost s: Peers)
      requires Valid() && d < store.cfg.p && Shaped(s, store.cfg)
      requires Disturbed(s, store.View(), d, inode, store.cfg)
      requires Holds(FileOf(d, inode), c, store.cfg.B) && piece.off <= |c|
      modifies this`buffers, store`attrs
      ensures OtherBuffers(d, inode)
      ensures Valid() && Disturbed(s, store.View(), d, inode, store.cfg)
      ensures FileOf(d, inode).waiting && Holds(FileOf(d, inode), Splice(c, piece.off, piece.data), store.cfg.B)
      ensures Splice(c, piece.off, piece.data) == [] ==> store.View() == old(store.View())
    {
      ghost var f, before := FileOf(d, inode), store.View();
      WriteHolds(f, c, piece, [], store.cfg.B);
      var _, junk := FuseWrite(d, inode, piece.off, piece.data);
      WriteHolds(f, c, piece, junk, store.cfg.B);
      DisturbedTwice(s, before, store.View(), d, inode, store.cfg);
    }

    /** The writes of a session, one after the other. */
    method WritePieces(d: nat, inode: nat, pieces: seq<Piece>, ghost c: seq<Byte>, ghost s: Peers)
      requires Valid() && d < store.cfg.p && Shaped(s, store.cfg)
      requires Disturbed(s, store.View(), d, inode, store.cfg)
      requires Holds(FileOf(d, inode), c, store.cfg.B) && AtOrBeforeEnd(|c|, pieces)
      modifies this`buffers, store`attrs
      ensures OtherBuffers(d, inode)
      ensures Valid() && Disturbed(s, store.View(), d, inode, store.cfg)
      ensures Holds(FileOf(d, inode), SpliceAll(c, pieces), store.cfg.B)
      ensures FileOf(d, inode).waiting == (old(FileOf(d, inode).waiting) || pieces != [])
      ensures pieces == [] || SpliceAll(c, pieces) == [] ==> store.View() == old(store.View())
    {
      ghost var now := c;
      assert pieces[0..] == pieces;
      for k := 0 to |pieces|
        invariant Valid() && Disturbed(s, store.View(), d, inode, store.cfg)
        invariant Holds(FileOf(d, inode), now, store.cfg.B) && AtOrBeforeEnd(|now|, pieces[k..])
        invariant SpliceAll(now, pieces[k..]) == SpliceAll(c, pieces)
        invariant FileOf(d, inode).waiting == (old(FileOf(d, inode).waiting) || k > 0)
        invariant k == 0 || now == [] ==> store.View() == old(store.View())
        invariant OtherBuffers(d, inode)
      {
        assert pieces[k..][1..] == pieces[k + 1..];
        WritePiece(d, inode, pieces[k], now, s);
        now := Splice(now, pieces[k].off, pieces[k].data);
      }
    }

    /** The flush at the end of a session: it stores if something was written and the file is
        not empty. */
    method Close(d: nat, inode: nat, ghost c: seq<Byte>, ghost events: seq<Event>) returns (ghost after: seq<Event>)
      requires Valid() && d < store.cfg.p && AllLegal(events, store.cfg)
      requires Disturbed(After(events, store.cfg), store.View(), d, inode, store.cfg)
      requires Holds(FileOf(d, inode), c, store.cfg.B) && TransferFits(BlockCount(|c|, store.cfg.B), store.cfg)
      requires (FileOf(d, inode).waiting && c != []) || store.View() == After(events, store.cfg)
      modifies this`buffers, store, store.ranks, store.blocks
      ensures OtherBuffers(d, inode)
      ensures Valid() && AllLegal(after, store.cfg) && store.View() == After(after, store.cfg)
      ensures BufferOf(buffers[d], inode).bytes.None?
      ensures if old(FileOf(d, inode).waiting) && c != [] then
                && LastContent(after, inode, store.cfg) == c && RightHistory(after, d, inode)
                && BufferOf(buffers[d], inode) == NoBuffer
                && forall root: nat :: Untouched(after, root, inode)
              else after == events
    {
      ghost var f, s := FileOf(d, inode), After(events, store.cfg);
      ghost var now := store.View();
      var addrs := FuseFlush(d, inode);
      after := events;
      if f.waiting && c != [] {
        ghost var e := Write(d, inode, f.size, f.blocks, f.buf.value, addrs);
        FlushSettles(s, now, e, store.cfg);
        OneMore(events, e, store.cfg);
        after := events + [e];
        Flushed(events, e, c, store.cfg);
      }
    }

    /** What one peer writes to a file between opening and closing it, every peer finds that
        opens the file later: over every history the contents are then the earlier ones, or
        none after a truncation, with the session's writes spliced in one after the other. A
        session that writes nothing, or leaves the file empty, flushes nothing. */
    method Session(d: nat, inode: nat, truncates: bool, pieces: seq<Piece>, ghost events: seq<Event>)
      returns (ghost after: seq<Event>)
      requires MayOpen(d, inode, truncates, events)
      requires AtOrBeforeEnd(|StartOf(events, inode, truncates)|, pieces)
      requires TransferFits(BlockCount(|SpliceAll(StartOf(events, inode, truncates), pieces)|, store.cfg.B), store.cfg)
      modifies this`buffers, store, store.ranks, store.blocks
      ensures OtherBuffers(d, inode)
      ensures Valid() && AllLegal(after, store.cfg) && store.View() == After(after, store.cfg)
      ensures var c := SpliceAll(StartOf(events, inode, truncates), pieces);
              if pieces != [] && c != [] then
                && LastContent(after, inode, store.cfg) == c && RightHistory(after, d, inode)
                && BufferOf(buffers[d], inode) == NoBuffer
                && forall root: nat :: Untouched(after, root, inode)
              else
                && LastContent(after, inode, store.cfg) == LastContent(events, inode, store.cfg)
                && BufferOf(buffers[d], inode).bytes.None?
    {
      ghost var start := StartOf(events, inode, truncates);
      after := Open(d, inode, truncates, events);
      WritePieces(d, inode, pieces, start, After(after, store.cfg));
      after := Close(d, inode, SpliceAll(start, pieces), after);
    }
  }
}
