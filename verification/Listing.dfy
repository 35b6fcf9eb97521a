/** Reading a directory in replies of bounded size, with a cursor kept between the calls. */
module Listing {

  datatype Entry = Entry(name: string, ino: nat)
  {
    /** Room that the entry takes in a reply. */
    function Size(): nat { DirentSize(|name|) }
  }

  /** A header of 24 bytes and the name, padded to 8 bytes. */
  function DirentSize(length: nat): (size: nat)
    ensures size >= 24
  {
    (24 + length + 7) / 8 * 8
  }

  /** What "." and ".." are sent as: both stand for the directory itself. */
  function Dots(ino: nat): seq<Entry> { [Entry(".", ino), Entry("..", ino)] }

  /** Room of "." and "..". */
  const DOTS: nat := DirentSize(1) + DirentSize(2)

  /** Room that entries take one after the other. */
  function TotalSize(entries: seq<Entry>): nat {
    if entries == [] then 0 else entries[0].Size() + TotalSize(entries[1..])
  }

  lemma {:induction false} TotalOfBoth(a: seq<Entry>, b: seq<Entry>)
    ensures TotalSize(a + b) == TotalSize(a) + TotalSize(b)
    decreases |a|
  {
    if a == [] {
      assert a + b == b;
    } else {
      assert (a + b)[1..] == a[1..] + b;
      TotalOfBoth(a[1..], b);
    }
  }

  lemma TotalOfOne(e: Entry)
    ensures TotalSize([e]) == e.Size()
  {
    assert [e][1..] == [];
  }

  lemma TotalOfDots(ino: nat)
    ensures TotalSize(Dots(ino)) == DOTS
  {
    TotalOfOne(Entry(".", ino));
    TotalOfOne(Entry("..", ino));
    TotalOfBoth([Entry(".", ino)], [Entry("..", ino)]);
  }

  const READDIR_BUF_SIZE: nat := 384
  const READDIR_ENTRIES_PER_RESPONSE: nat := 255

  /** A reply that sent the entries up to `end` and left the cursor at `next`. */
  datatype Round = Round(end: nat, next: int)

  /** The filling loop: an entry that does not fit ends the reply and moves the cursor back
      by one, onto the entry that was sent last. */
  function Fill(dir: seq<Entry>, pos: nat, bytes: nat, count: nat, room: nat): (r: Round)
    requires pos <= |dir|
    ensures pos <= r.end <= |dir|
    ensures r.next == r.end || (r.next == r.end - 1 && r.end < |dir|)
    decreases |dir| - pos
  {
    if count >= READDIR_ENTRIES_PER_RESPONSE || pos == |dir| then Round(pos, pos)
    else if bytes + dir[pos].Size() > room then Round(pos, pos - 1)
    else Fill(dir, pos + 1, bytes + dir[pos].Size(), count + 1, room)
  }

  /** One call; the first one also sends "." and "..". */
  function ReadDir(dir: seq<Entry>, pos: nat, first: bool, room: nat): (r: Round)
    requires pos <= |dir|
    ensures pos <= r.end <= |dir|
  {
    if first then Fill(dir, pos, DOTS, 2, room) else Fill(dir, pos, 0, 0, room)
  }

  /** The reply of one call: "." and ".." if it is the first, then the entries that fit. */
  function Reply(dir: seq<Entry>, ino: nat, pos: nat, first: bool, room: nat): seq<Entry>
    requires pos <= |dir|
  {
    (if first then Dots(ino) else []) + dir[pos..ReadDir(dir, pos, first, room).end]
  }

  /** The loop stops with room or number used up, or at the end of the directory. */
  predicate Stopped(dir: seq<Entry>, r: Round, bytes: nat, count: nat, room: nat) {
    && bytes <= room && count <= READDIR_ENTRIES_PER_RESPONSE && r.end <= |dir|
    && (var more := r.end < |dir| && count < READDIR_ENTRIES_PER_RESPONSE;
        && r.next == (if more then r.end - 1 else r.end)
        && (more ==> bytes + dir[r.end].Size() > room))
  }

  /** What the loop sends fits into the reply, and nothing more would have. */
  lemma {:induction false} FillFits(dir: seq<Entry>, pos: nat, bytes: nat, count: nat, room: nat)
    requires pos <= |dir| && bytes <= room && count <= READDIR_ENTRIES_PER_RESPONSE
    ensures var r := Fill(dir, pos, bytes, count, room);
            Stopped(dir, r, bytes + TotalSize(dir[pos..r.end]), count + r.end - pos, room)
    decreases |dir| - pos
  {
    var r := Fill(dir, pos, bytes, count, room);
    if r.end > pos {
      FillFits(dir, pos + 1, bytes + dir[pos].Size(), count + 1, room);
      assert dir[pos..r.end][1..] == dir[pos + 1..r.end];
    }
  }

  /** Every reply fits into its room, with "." and ".." if it is the first, has no more than 255
      entries, and stops only for these reasons; the cursor then moves back by one if an entry
      did not fit, and only then. */
  lemma ReplyFits(dir: seq<Entry>, ino: nat, pos: nat, first: bool, room: nat)
    requires pos <= |dir| && (first ==> DOTS <= room)
    ensures var reply := Reply(dir, ino, pos, first, room);
            Stopped(dir, ReadDir(dir, pos, first, room), TotalSize(reply), |reply|, room)
  {
    var r := ReadDir(dir, pos, first, room);
    if first {
      FillFits(dir, pos, DOTS, 2, room);
      TotalOfDots(ino);
      TotalOfBoth(Dots(ino), dir[pos..r.end]);
    } else {
      FillFits(dir, pos, 0, 0, room);
      assert [] + dir[pos..r.end] == dir[pos..r.end];
    }
  }

  /** Room of a reply: the request's, but never more than the buffer. */
  function Room(size: nat): nat {
    if READDIR_BUF_SIZE < size then READDIR_BUF_SIZE else size
  }

  /** "." and ".." fit into one reply, together with the first entry if there is one. */
  predicate FirstFits(dir: seq<Entry>, room: nat) {
    DOTS + (if |dir| > 0 then dir[0].Size() else 0) <= room
  }

  predicate PairFits(dir: seq<Entry>, i: nat, room: nat)
    requires i + 1 < |dir|
  {
    dir[i].Size() + dir[i + 1].Size() <= room
  }

  /** Any two neighbours in name order fit into one reply. */
  ghost predicate PairsFit(dir: seq<Entry>, room: nat) {
    forall i: nat :: i + 1 < |dir| ==> PairFits(dir, i, room)
  }

  /** The loop sends entries one by one as long as they fit. */
  lemma {:induction false} FillAtLeast(dir: seq<Entry>, pos: nat, bytes: nat, count: nat, room: nat)
    requires pos < |dir| && bytes + dir[pos].Size() <= room && count < READDIR_ENTRIES_PER_RESPONSE - 1
    ensures Fill(dir, pos, bytes, count, room).end > pos
    ensures pos + 1 < |dir| && bytes + dir[pos].Size() + dir[pos + 1].Size() <= room ==>
              Fill(dir, pos, bytes, count, room).end > pos + 1
  {
    assert Fill(dir, pos, bytes, count, room) == Fill(dir, pos + 1, bytes + dir[pos].Size(), count + 1, room);
    if pos + 1 < |dir| && bytes + dir[pos].Size() + dir[pos + 1].Size() <= room {
      assert Fill(dir, pos + 1, bytes + dir[pos].Size(), count + 1, room)
          == Fill(dir, pos + 2, bytes + dir[pos].Size() + dir[pos + 1].Size(), count + 2, room);
    }
  }

  /** When neighbours fit, every call after the first advances the cursor, and a call that
      stops for lack of room repeats just the last entry it sent. */
  lemma Advances(dir: seq<Entry>, pos: nat, room: nat)
    requires pos < |dir| && PairsFit(dir, room) && FirstFits(dir, room)
    ensures var r := ReadDir(dir, pos, false, room);
            pos < r.next <= r.end <= r.next + 1
  {
    if pos + 1 < |dir| {
      assert PairFits(dir, pos, room);
      FillAtLeast(dir, pos, 0, 0, room);
    } else {
      if pos > 0 { assert PairFits(dir, pos - 1, room); }
      FillAtLeast(dir, pos, 0, 0, room);
    }
  }

  /** The first call sends the first entry and leaves the cursor in range. */
  lemma FirstCall(dir: seq<Entry>, room: nat)
    requires FirstFits(dir, room)
    ensures var r := ReadDir(dir, 0, true, room);
            0 <= r.next <= r.end <= r.next + 1 && (|dir| > 0 ==> r.end > 0)
  {
    if |dir| > 0 { FillAtLeast(dir, 0, DOTS, 2, room); }
  }

  /** The index ranges that the calls after the first send, until the cursor is at the end. */
  ghost function Calls(dir: seq<Entry>, pos: nat, room: nat): (calls: seq<(nat, nat)>)
    requires pos <= |dir| && PairsFit(dir, room) && FirstFits(dir, room)
    decreases |dir| - pos
  {
    if pos == |dir| then []
    else
      Advances(dir, pos, room);
      var r := ReadDir(dir, pos, false, room);
      [(pos, r.end)] + Calls(dir, r.next, room)
  }

  /** The whole listing: the first call and all that follow. */
  ghost function WholeListing(dir: seq<Entry>, room: nat): seq<(nat, nat)>
    requires PairsFit(dir, room) && FirstFits(dir, room)
  {
    FirstCall(dir, room);
    var r := ReadDir(dir, 0, true, room);
    [(0, r.end)] + Calls(dir, r.next, room)
  }

  /** Calls in order, each starting at the end of the one before or one entry earlier. */
  ghost predicate Chained(calls: seq<(nat, nat)>) {
    && (forall k :: 0 <= k < |calls| ==> calls[k].0 <= calls[k].1)
    && (forall k :: 0 <= k < |calls| - 1 ==> calls[k + 1].0 <= calls[k].1 <= calls[k + 1].0 + 1)
    && (forall k :: 0 <= k < |calls| - 1 ==> calls[k].1 <= calls[k + 1].1)
  }

  /** A chain over the whole directory from entry `pos` on. */
  ghost predicate Covers(calls: seq<(nat, nat)>, pos: nat, n: nat) {
    && Chained(calls)
    && (calls == [] <==> pos == n)
    && (calls != [] ==> calls[0].0 == pos && calls[0].1 > pos && calls[|calls| - 1].1 == n)
  }

  lemma CoversCons(call: (nat, nat), next: nat, rest: seq<(nat, nat)>, n: nat)
    requires Covers(rest, next, n) && call.0 < call.1 <= n && next <= call.1 <= next + 1
    ensures Covers([call] + rest, call.0, n)
  {
    var calls := [call] + rest;
    assert forall k :: 0 < k < |calls| ==> calls[k] == rest[k - 1];
  }

  lemma {:induction false} CallsCover(dir: seq<Entry>, pos: nat, room: nat)
    requires pos <= |dir| && PairsFit(dir, room) && FirstFits(dir, room)
    ensures Covers(Calls(dir, pos, room), pos, |dir|)
    decreases |dir| - pos
  {
    if pos < |dir| {
      Advances(dir, pos, room);
      var r := ReadDir(dir, pos, false, room);
      CallsCover(dir, r.next, room);
      CoversCons((pos, r.end), r.next, Calls(dir, r.next, room), |dir|);
    }
  }

  /** Coverage: the listing ends, sends the entries in name order from the first to the last,
      leaves no gap, and repeats at most the last entry of each reply. */
  lemma ListingCovers(dir: seq<Entry>, room: nat)
    requires PairsFit(dir, room) && FirstFits(dir, room)
    ensures var calls := WholeListing(dir, room);
            && Chained(calls)
            && calls[0].0 == 0
            && calls[|calls| - 1].1 == |dir|
  {
    FirstCall(dir, room);
    var r := ReadDir(dir, 0, true, room);
    CallsCover(dir, r.next, room);
    if |dir| > 0 { CoversCons((0, r.end), r.next, Calls(dir, r.next, room), |dir|); }
  }

  lemma {:induction false} ChainCovers(calls: seq<(nat, nat)>, n: nat, i: nat)
    requires Chained(calls) && calls != [] && calls[|calls| - 1].1 == n
    requires calls[0].0 <= i < n
    ensures exists k :: 0 <= k < |calls| && calls[k].0 <= i < calls[k].1
    decreases |calls|
  {
    if i < calls[0].1 {
      assert calls[0].0 <= i < calls[0].1;
    } else {
      var rest := calls[1..];
      assert forall k :: 0 <= k < |rest| ==> rest[k] == calls[k + 1];
      ChainCovers(rest, n, i);
      var k :| 0 <= k < |rest| && rest[k].0 <= i < rest[k].1;
      assert calls[k + 1].0 <= i < calls[k + 1].1;
    }
  }

  /** The order of the names: character by character, a prefix first. */
  predicate Less(a: string, b: string) {
    b != "" && (a == "" || a[0] < b[0] || (a[0] == b[0] && Less(a[1..], b[1..])))
  }

  /** The entries are those of a directory's map, each once, in name order. */
  ghost predicate Lists(dir: seq<Entry>, children: map<string, nat>) {
    && (forall i :: 0 <= i < |dir| ==> dir[i].name in children && dir[i].ino == children[dir[i].name])
    && (forall name :: name in children ==> exists i :: 0 <= i < |dir| && dir[i].name == name)
    && (forall i, j :: 0 <= i < j < |dir| ==> Less(dir[i].name, dir[j].name))
  }

  /** A later call starts no earlier than at the last entry of any call before it. */
  lemma {:induction false} ChainRises(calls: seq<(nat, nat)>, k: nat, l: nat)
    requires Chained(calls) && k <= l < |calls|
    ensures calls[k].1 <= calls[l].1
    ensures k < l ==> calls[k].1 <= calls[l].0 + 1
    decreases l
  {
    if k < l { ChainRises(calls, k, l - 1); }
  }

  /** A chain of calls over the whole directory sends each of its entries. */
  lemma ChainSends(dir: seq<Entry>, calls: seq<(nat, nat)>, i: nat)
    requires Chained(calls) && calls != [] && calls[0].0 == 0 && calls[|calls| - 1].1 == |dir| && i < |dir|
    ensures exists k :: 0 <= k < |calls| && calls[k].0 <= i < calls[k].1 <= |dir|
  {
    ChainCovers(calls, |dir|, i);
    var k :| 0 <= k < |calls| && calls[k].0 <= i < calls[k].1;
    ChainRises(calls, k, |calls| - 1);
    assert calls[k].0 <= i < calls[k].1 <= |dir|;
  }

  /** Call `k` of the listing sends entry `i` of the directory. */
  ghost predicate Sends(dir: seq<Entry>, room: nat, k: nat, i: nat)
    requires PairsFit(dir, room) && FirstFits(dir, room)
  {
    var calls := WholeListing(dir, room);
    k < |calls| && calls[k].0 <= i < calls[k].1 <= |dir|
  }

  lemma SomeCallSends(dir: seq<Entry>, room: nat, i: nat)
    requires PairsFit(dir, room) && FirstFits(dir, room) && i < |dir|
    ensures exists k: nat :: Sends(dir, room, k, i)
  {
    var calls := WholeListing(dir, room);
    ListingCovers(dir, room);
    ChainSends(dir, calls, i);
    var k :| 0 <= k < |calls| && calls[k].0 <= i < calls[k].1 <= |dir|;
    assert Sends(dir, room, k, i);
  }

  /** Each later call is one of the handler. */
  lemma {:induction false} CallsAreRead(dir: seq<Entry>, pos: nat, room: nat, k: nat)
    requires pos <= |dir| && PairsFit(dir, room) && FirstFits(dir, room) && k < |Calls(dir, pos, room)|
    ensures var call := Calls(dir, pos, room)[k];
            call.0 <= |dir| && call.1 == ReadDir(dir, call.0, false, room).end
    decreases |dir| - pos
  {
    Advances(dir, pos, room);
    if k > 0 { CallsAreRead(dir, ReadDir(dir, pos, false, room).next, room, k - 1); }
  }

  /** The reply of call `k` of the listing. */
  ghost function ReplyOf(dir: seq<Entry>, ino: nat, room: nat, k: nat): seq<Entry>
    requires PairsFit(dir, room) && FirstFits(dir, room) && k < |WholeListing(dir, room)|
    requires WholeListing(dir, room)[k].0 <= |dir|
  {
    Reply(dir, ino, WholeListing(dir, room)[k].0, k == 0, room)
  }

  lemma SentInReply(dir: seq<Entry>, ino: nat, room: nat, k: nat, i: nat)
    requires PairsFit(dir, room) && FirstFits(dir, room) && Sends(dir, room, k, i)
    ensures dir[i] in ReplyOf(dir, ino, room, k)
  {
    FirstCall(dir, room);
    var call := WholeListing(dir, room)[k];
    if k > 0 { CallsAreRead(dir, ReadDir(dir, 0, true, room).next, room, k - 1); }
    assert dir[call.0..call.1][i - call.0] == dir[i];
  }

  /** Every child of a directory is in some reply of its listing, with its inode number. */
  lemma EveryEntrySent(dir: seq<Entry>, ino: nat, children: map<string, nat>, room: nat, name: string)
    requires PairsFit(dir, room) && FirstFits(dir, room) && Lists(dir, children) && name in children
    ensures exists k: nat, i: nat :: Sends(dir, room, k, i) && Entry(name, children[name]) in ReplyOf(dir, ino, room, k)
  {
    var i: nat :| i < |dir| && dir[i].name == name;
    SomeCallSends(dir, room, i);
    var k: nat :| Sends(dir, room, k, i);
    SentInReply(dir, ino, room, k, i);
    assert dir[i] == Entry(name, children[name]);
  }

  /** The listing goes in name order: what an earlier call sends never comes after what a later
      call sends, and at most the last entry of the earlier call is sent by both. */
  lemma SentInNameOrder(dir: seq<Entry>, children: map<string, nat>, room: nat, k: nat, l: nat, i: nat, j: nat)
    requires PairsFit(dir, room) && FirstFits(dir, room) && Lists(dir, children)
    requires k < l && Sends(dir, room, k, i) && Sends(dir, room, l, j)
    ensures Less(dir[i].name, dir[j].name) || (i == j && i + 1 == WholeListing(dir, room)[k].1)
  {
    ListingCovers(dir, room);
    ChainRises(WholeListing(dir, room), k, l);
  }

  // ---- when the listing does not end ----

  /** The cursor after the first call and `k` more. */
  ghost function CursorAfter(dir: seq<Entry>, room: nat, k: nat): (pos: int)
    ensures pos <= |dir|
  {
    if k == 0 then ReadDir(dir, 0, true, room).next
    else
      var pos := CursorAfter(dir, room, k - 1);
      if pos < 0 || pos == |dir| then pos else ReadDir(dir, pos, false, room).next
  }

  /** A reply never holds two neighbours that do not fit together. */
  lemma {:induction false} FillStopsBetween(dir: seq<Entry>, pos: nat, bytes: nat, count: nat, room: nat, i: nat)
    requires pos <= i && i + 1 < |dir| && !PairFits(dir, i, room)
    requires room <= READDIR_BUF_SIZE && 24 * count <= bytes
    ensures Fill(dir, pos, bytes, count, room).next <= i
    decreases |dir| - pos
  {
    if count < READDIR_ENTRIES_PER_RESPONSE && bytes + dir[pos].Size() <= room && pos < i {
      FillStopsBetween(dir, pos + 1, bytes + dir[pos].Size(), count + 1, room, i);
    } else if bytes + dir[pos].Size() <= room {
      assert Fill(dir, pos, bytes, count, room) == Fill(dir, pos + 1, bytes + dir[pos].Size(), count + 1, room);
    }
  }

  lemma {:induction false} CursorStuck(dir: seq<Entry>, room: nat, i: nat, k: nat)
    requires i + 1 < |dir| && !PairFits(dir, i, room) && room <= READDIR_BUF_SIZE
    ensures CursorAfter(dir, room, k) <= i
    decreases k
  {
    if k == 0 {
      FillStopsBetween(dir, 0, DOTS, 2, room, i);
    } else {
      CursorStuck(dir, room, i, k - 1);
      var pos := CursorAfter(dir, room, k - 1);
      if pos >= 0 { FillStopsBetween(dir, pos, 0, 0, room, i); }
    }
  }

  lemma {:induction false} CursorAdvances(dir: seq<Entry>, room: nat, k: nat)
    requires PairsFit(dir, room) && FirstFits(dir, room)
    ensures CursorAfter(dir, room, k) == |dir| || CursorAfter(dir, room, k) >= k
    decreases k
  {
    FirstCall(dir, room);
    if k > 0 {
      CursorAdvances(dir, room, k - 1);
      var pos := CursorAfter(dir, room, k - 1);
      if pos < |dir| { Advances(dir, pos, room); }
    }
  }

  /** The listing reaches its end precisely when any two neighbours fit into one reply. */
  lemma ListingEndsIff(dir: seq<Entry>, room: nat)
    requires FirstFits(dir, room) && room <= READDIR_BUF_SIZE
    ensures (exists k: nat :: CursorAfter(dir, room, k) == |dir|) <==> PairsFit(dir, room)
  {
    if PairsFit(dir, room) {
      CursorAdvances(dir, room, |dir|);
      assert CursorAfter(dir, room, |dir|) == |dir|;
    } else {
      var i: nat :| i + 1 < |dir| && !PairFits(dir, i, room);
      forall k: nat ensures CursorAfter(dir, room, k) != |dir| {
        CursorStuck(dir, room, i, k);
      }
    }
  }

  /** Two files with names of 170 characters: a listing of their directory never ends,
      although each call sends something. */
  lemma EndlessListing(a: string, b: string, k: nat)
    requires |a| == |b| == 170
    ensures var dir := [Entry(a, 2), Entry(b, 3)];
            FirstFits(dir, Room(4096)) && CursorAfter(dir, Room(4096), k) != |dir|
  {
    var dir := [Entry(a, 2), Entry(b, 3)];
    assert !PairFits(dir, 0, Room(4096));
    CursorStuck(dir, Room(4096), 0, k);
  }

  /** An open directory: its number, the entries in name order, and the cursor that the calls
      share. */
  class DirectoryStream {
    const ino: nat
    const entries: seq<Entry>
    var started: bool
    var cursor: nat

    constructor (ino: nat, entries: seq<Entry>)
      ensures this.ino == ino && this.entries == entries && !started && cursor == 0
    {
      this.ino, this.entries := ino, entries;
      started, cursor := false, 0;
    }

    /** Sends the next reply. At the end it is empty. */
    method FuseReadDir(size: nat) returns (reply: seq<Entry>)
      requires cursor <= |entries| && (!started ==> cursor == 0)
      requires !started ==> FirstFits(entries, Room(size))
      requires started && cursor < |entries| ==> entries[cursor].Size() <= Room(size)
      modifies this
      ensures started && cursor <= |entries|
      ensures old(started) && old(cursor) == |entries| ==> reply == [] && cursor == |entries|
      ensures !(old(started) && old(cursor) == |entries|) ==>
                && reply == Reply(entries, ino, old(cursor), !old(started), Room(size))
                && cursor == ReadDir(entries, old(cursor), !old(started), Room(size)).next
      ensures TotalSize(reply) <= Room(size) && |reply| <= READDIR_ENTRIES_PER_RESPONSE
    {
      if started && cursor == |entries| {
        return [];
      }
      var bufSize := Room(size);
      ReplyFits(entries, ino, cursor, !started, bufSize);
      reply := [];
      var bytesAdded, entriesAdded := 0, 0;
      if !started {
        started := true;
        reply := Dots(ino);
        bytesAdded, entriesAdded := DOTS, 2;
      }
      var sent := SendEntries(bytesAdded, entriesAdded, bufSize);
      reply := reply + sent;
    }

    /** The filling loop. */
    method SendEntries(bytesBefore: nat, entriesBefore: nat, bufSize: nat) returns (sent: seq<Entry>)
      requires cursor <= |entries|
      requires Fill(entries, cursor, bytesBefore, entriesBefore, bufSize).next >= 0
      modifies this`cursor
      ensures var r := Fill(entries, old(cursor), bytesBefore, entriesBefore, bufSize);
              cursor == r.next && sent == entries[old(cursor)..r.end]
    {
      var bytesAdded: nat, entriesAdded: nat := bytesBefore, entriesBefore;
      ghost var start := cursor;
      sent := [];
      while entriesAdded < READDIR_ENTRIES_PER_RESPONSE && cursor != |entries|
        invariant start <= cursor <= |entries| && sent == entries[start..cursor]
        invariant Fill(entries, start, bytesBefore, entriesBefore, bufSize)
                  == Fill(entries, cursor, bytesAdded, entriesAdded, bufSize)
        decreases |entries| - cursor
      {
        var oldSize := bytesAdded;
        bytesAdded := bytesAdded + entries[cursor].Size();
        if bytesAdded > bufSize {
          cursor := cursor - 1;
          bytesAdded := oldSize;
          break;
        } else {
          sent := sent + [entries[cursor]];
          cursor := cursor + 1;
          entriesAdded := entriesAdded + 1;
        }
      }
    }
  }
}
