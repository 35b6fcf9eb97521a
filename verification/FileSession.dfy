/** One open file: a buffer that grows in whole blocks under writes. */
module FileSession {
  import opened Partition
  import opened BlockStore
  import opened Blocks

  /** The file part of an inode: `st_size`, `st_blocks`, the buffer, and whether a flush must write. */
  datatype FileData = FileData(size: nat, blocks: nat, buf: Option<seq<Byte>>, waiting: bool)

  const EmptyFile: FileData := FileData(0, 0, None, false)

  /** Inside a session: the block count rounds the size up, and the buffer has exactly that many blocks. */
  ghost predicate BufferInv(f: FileData, B: nat)
    requires B > 0
  {
    && f.blocks == BlockCount(f.size, B)
    && (f.buf.Some? ==> |f.buf.value| == f.blocks * B)
    && (f.buf.None? ==> f.blocks == 0)
  }

  /** The bytes that the buffer stands for. */
  ghost function Content(f: FileData): seq<Byte>
    requires f.buf.Some? ==> f.size <= |f.buf.value|
  {
    if f.buf.Some? then f.buf.value[..f.size] else []
  }

  /** `realloc`: old bytes are kept, new ones are whatever the allocator left there. */
  function Realloc(prior: Option<seq<Byte>>, n: nat, junk: seq<Byte>): (buf: seq<Byte>)
    ensures |buf| == n
  {
    var kept := if prior.Some? then prior.value else [];
    seq(n, i requires 0 <= i < n =>
      if i < |kept| then kept[i] else if i - |kept| < |junk| then junk[i - |kept|] else 0)
  }

  /** `memcpy` of `data` to offset `off`. */
  function Overlay(buf: seq<Byte>, off: nat, data: seq<Byte>): (out: seq<Byte>)
    requires off + |data| <= |buf|
    ensures |out| == |buf|
  {
    buf[..off] + data + buf[off + |data|..]
  }

  /** A write that lands beyond the capacity makes the buffer as large as the new end needs. */
  function GrowFile(f: FileData, newSize: nat, junk: seq<Byte>, B: nat): FileData
    requires B > 0
  {
    if newSize > B * f.blocks then
      var newBlocks := BlockCount(newSize, B);
      f.(buf := Some(Realloc(f.buf, newBlocks * B, junk)), blocks := newBlocks)
    else f
  }

  function Capacity(f: FileData): nat {
    if f.buf.Some? then |f.buf.value| else 0
  }

  /** A write that ends at `newSize` copies into memory that the buffer has: either the
      capacity test makes the buffer larger, or it was large enough. */
  predicate InBounds(f: FileData, newSize: nat, B: nat) {
    newSize > B * f.blocks || newSize <= Capacity(f)
  }

  function WriteFile(f: FileData, off: nat, data: seq<Byte>, junk: seq<Byte>, B: nat): FileData
    requires B > 0 && InBounds(f, off + |data|, B)
  {
    var newSize := off + |data|;
    var g := GrowFile(f, newSize, junk, B);
    g.(waiting := true,
       buf := if g.buf.Some? then Some(Overlay(g.buf.value, off, data)) else None,
       size := if newSize > g.size then newSize else g.size)
  }

  /** What a write at or before the end means for the contents. */
  function Splice(c: seq<Byte>, off: nat, data: seq<Byte>): (out: seq<Byte>)
    requires off <= |c|
    ensures |out| == if off + |data| > |c| then off + |data| else |c|
  {
    c[..off] + data + (if off + |data| < |c| then c[off + |data|..] else [])
  }

  /** A buffer of whole blocks that just covers the size, whatever more the block count says. */
  ghost predicate Covered(f: FileData, B: nat)
    requires B > 0
  {
    && (f.buf.Some? ==> |f.buf.value| == BlockCount(f.size, B) * B)
    && (f.buf.None? ==> f.size == 0)
    && BlockCount(f.size, B) <= f.blocks
  }

  /** The buffer invariant is this and the right block count. */
  lemma InvIsCovered(f: FileData, B: nat)
    requires B > 0
    ensures BufferInv(f, B) <==> Covered(f, B) && f.blocks == BlockCount(f.size, B)
  {
  }

  lemma InvInBounds(f: FileData, newSize: nat, B: nat)
    requires B > 0 && BufferInv(f, B)
    ensures InBounds(f, newSize, B)
  {
    assert f.blocks * B == B * f.blocks;
  }

  lemma CoveredCapacity(f: FileData, B: nat)
    requires B > 0 && Covered(f, B)
    ensures Capacity(f) == BlockCount(f.size, B) * B
    ensures f.size <= Capacity(f) < f.size + B
  {
  }

  /** Of a covered file, every write stays in bounds precisely when the block count is right. */
  lemma AllInBoundsIff(f: FileData, B: nat)
    requires B > 0 && Covered(f, B)
    ensures (forall newSize: nat :: InBounds(f, newSize, B)) <==> BufferInv(f, B)
  {
    InvIsCovered(f, B);
    if BufferInv(f, B) {
      forall newSize: nat ensures InBounds(f, newSize, B) {
        InvInBounds(f, newSize, B);
      }
    } else {
      CoveredCapacity(f, B);
      ProductOrder(BlockCount(f.size, B), f.blocks, B);
      assert B * f.blocks == f.blocks * B;
      assert !InBounds(f, Capacity(f) + 1, B);
    }
  }

  lemma CoveredBelowBlocks(f: FileData, B: nat)
    requires B > 0 && Covered(f, B)
    ensures f.size <= Capacity(f) <= B * f.blocks
  {
    CoveredCapacity(f, B);
    ProductOrder(BlockCount(f.size, B), f.blocks, B);
    assert B * f.blocks == f.blocks * B;
  }

  /** A write in bounds, at or before the end, leaves the buffer covering the new size. */
  lemma WriteKeepsCovered(f: FileData, off: nat, data: seq<Byte>, junk: seq<Byte>, B: nat)
    requires B > 0 && Covered(f, B) && off <= f.size && InBounds(f, off + |data|, B)
    ensures Covered(WriteFile(f, off, data, junk, B), B)
    ensures f.blocks == BlockCount(f.size, B) ==>
              var g := WriteFile(f, off, data, junk, B); g.blocks == BlockCount(g.size, B)
  {
    var g := WriteFile(f, off, data, junk, B);
    CoveredBelowBlocks(f, B);
    CoveredCapacity(f, B);
    if off + |data| > B * f.blocks {
      assert g.size == off + |data|;
    } else {
      BlockCountUnique(g.size, B, BlockCount(f.size, B));
    }
  }

  /** A write keeps the buffer invariant: the copy stays in bounds, and the block count still
      rounds the size up exactly. */
  lemma WriteKeepsBufferInv(f: FileData, off: nat, data: seq<Byte>, junk: seq<Byte>, B: nat)
    requires B > 0 && BufferInv(f, B) && off <= f.size
    ensures InBounds(f, off + |data|, B)
    ensures BufferInv(WriteFile(f, off, data, junk, B), B)
  {
    InvInBounds(f, off + |data|, B);
    InvIsCovered(f, B);
    WriteKeepsCovered(f, off, data, junk, B);
    InvIsCovered(WriteFile(f, off, data, junk, B), B);
  }

  /** A write in bounds overlays the contents, growth preserves every earlier byte, and what
      the allocator left in the new blocks never shows. */
  lemma WriteOverlaysContent(f: FileData, off: nat, data: seq<Byte>, junk: seq<Byte>, B: nat)
    requires B > 0 && Covered(f, B) && off <= f.size && InBounds(f, off + |data|, B)
    ensures var g := WriteFile(f, off, data, junk, B);
            && (f.buf.Some? ==> f.size <= |f.buf.value|) && (g.buf.Some? ==> g.size <= |g.buf.value|)
            && Content(g) == Splice(Content(f), off, data)
  {
    var g := WriteFile(f, off, data, junk, B);
    CoveredBelowBlocks(f, B);
    if g.buf.Some? {
      OverlaidContent(f.buf, GrowFile(f, off + |data|, junk, B).buf.value, f.size, off, data);
    }
  }

  /** Under the buffer invariant a write needs nothing more than to start at or before the end. */
  lemma WriteUnderInv(f: FileData, off: nat, data: seq<Byte>, junk: seq<Byte>, B: nat)
    requires B > 0 && BufferInv(f, B) && off <= f.size
    ensures InBounds(f, off + |data|, B)
    ensures BufferInv(WriteFile(f, off, data, junk, B), B)
    ensures Content(WriteFile(f, off, data, junk, B)) == Splice(Content(f), off, data)
  {
    WriteKeepsBufferInv(f, off, data, junk, B);
    InvIsCovered(f, B);
    WriteOverlaysContent(f, off, data, junk, B);
  }

  lemma OverlaidContent(prior: Option<seq<Byte>>, grown: seq<Byte>, size: nat, off: nat, data: seq<Byte>)
    requires off <= size <= |grown| && off + |data| <= |grown|
    requires var kept := if prior.Some? then prior.value else [];
             size <= |kept| && kept[..size] == grown[..size]
    ensures var kept := if prior.Some? then prior.value[..size] else [];
            var end := if off + |data| > size then off + |data| else size;
            Overlay(grown, off, data)[..end] == Splice(kept, off, data)
  {
    var out := Overlay(grown, off, data);
    if off + |data| < size {
      assert out[..size] == grown[..off] + data + grown[off + |data|..size];
    } else {
      assert out[..off + |data|] == grown[..off] + data;
    }
  }

  /** The bytes of a reply to a read at or before the end. */
  function ReadFile(f: FileData, off: nat, n: nat): (bytes: seq<Byte>)
    requires f.buf.Some? ==> f.size <= |f.buf.value|
    requires f.buf.None? ==> f.size == 0
    requires off <= f.size
  {
    var bytesRead := if off + n > f.size then f.size - off else n;
    if f.buf.Some? then f.buf.value[off..off + bytesRead] else []
  }

  /** The slice of the contents that a read asks for. */
  function Slice(c: seq<Byte>, off: nat, n: nat): seq<Byte>
    requires off <= |c|
  {
    c[off..(if off + n < |c| then off + n else |c|)]
  }

  lemma ReadIsSlice(f: FileData, off: nat, n: nat, B: nat)
    requires B > 0 && BufferInv(f, B) && off <= f.size
    ensures f.buf.Some? ==> f.size <= |f.buf.value|
    ensures f.buf.None? ==> f.size == 0
    ensures ReadFile(f, off, n) == Slice(Content(f), off, n)
  {
    var bytesRead := if off + n > f.size then f.size - off else n;
    if f.buf.Some? {
      SliceOfSlice(f.buf.value, 0, f.size, off, off + bytesRead);
    }
  }
}
