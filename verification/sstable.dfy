/** A sorted table (`SsTable`): the memtable's commands cut into blocks of
    `partSize` entries, each block serialised and written in turn, a sparse
    index from every block's first key to its position, then the footer.
    A point lookup reads the blocks whose first key is not above the key. */
module SsTable {
  import opened Wrappers
  import opened Keys
  import opened Commands
  import opened SortedMap
  import opened Bytes
  import TableMeta
  import Utf8
  import Seqs

  /** The commands of one data block, in key order. */
  type Block = seq<Command>

  /** Where a block lies in the file: its first byte and its length. */
  datatype Position = Position(start: int, len: int)

  /** One sparse-index entry: a block's first key and its position. */
  datatype IndexEntry = IndexEntry(firstKey: Key, pos: Position)

  /** How blocks and the index become bytes. In the store this is JSON,
      optionally Snappy-compressed; the model keeps it abstract. A
      `decodeBlock` of `None` is text that does not parse. */
  datatype TableCodec = TableCodec(
    encodeBlock: Block -> seq<byte>,
    decodeBlock: seq<byte> -> Option<Block>,
    encodeIndex: seq<IndexEntry> -> seq<byte>)

  /** Decoding undoes encoding. */
  ghost predicate Invertible(codec: TableCodec)
  {
    forall b :: codec.decodeBlock(codec.encodeBlock(b)) == Some(b)
  }

  /** A table: its footer fields, its level, its sparse index and its file.
      `blocks` is what the data part of the file holds, block by block. */
  datatype Table = Table(
    meta: TableMeta.TableMetaInfo,
    level: int32,
    index: seq<IndexEntry>,
    blocks: seq<Block>,
    file: seq<byte>)
  {
    function Number(): int64 { meta.number }
    function SmallestKey(): Key { meta.smallestKey }
    function LargestKey(): Key { meta.largestKey }
  }

  // ---------------------------------------------------------------------------
  // Reference layout of a table's data part.
  // ---------------------------------------------------------------------------

  /** The blocks' commands, one after another. */
  function Flatten(bs: seq<Block>): (r: Entries)
    ensures |bs| == 0 ==> r == []
  {
    if |bs| == 0 then [] else bs[0] + Flatten(bs[1..])
  }

  /** The entries cut into consecutive blocks of `size`, the last one
      possibly shorter. */
  function Chunks(e: Entries, size: nat): (r: seq<Block>)
    requires size >= 1
    decreases |e|
  {
    if |e| == 0 then []
    else if |e| <= size then [e]
    else [e[..size]] + Chunks(e[size..], size)
  }

  /** The blocks' bytes, one after another. */
  function Encoded(codec: TableCodec, bs: seq<Block>): (r: seq<byte>)
    ensures |bs| == 0 ==> r == []
  {
    if |bs| == 0 then []
    else Encoded(codec, bs[..|bs| - 1]) + codec.encodeBlock(bs[|bs| - 1])
  }

  predicate NonEmptyBlocks(bs: seq<Block>)
  {
    forall i :: 0 <= i < |bs| ==> |bs[i]| > 0
  }

  /** The sparse index of blocks written one after another from offset 0:
      each block's first key, where its bytes start and how many there are. */
  function IndexFor(codec: TableCodec, bs: seq<Block>): (r: seq<IndexEntry>)
    requires NonEmptyBlocks(bs)
    ensures |r| == |bs|
  {
    if |bs| == 0 then []
    else
      var front := bs[..|bs| - 1];
      var last := bs[|bs| - 1];
      IndexFor(codec, front)
      + [IndexEntry(last[0].key, Position(|Encoded(codec, front)|, |codec.encodeBlock(last)|))]
  }

  // ---------------------------------------------------------------------------
  // initFromIndex and writeDataPart.
  // ---------------------------------------------------------------------------

  /** The state `initFromIndex` threads through its loop: the block being
      filled, the bytes written so far, the sparse index, and the blocks
      already written. */
  datatype Builder = Builder(part: Block, file: seq<byte>, index: seq<IndexEntry>, blocks: seq<Block>)

  /** The builder agrees with the reference layout of the blocks it wrote. */
  predicate Laid(codec: TableCodec, b: Builder)
  {
    && NonEmptyBlocks(b.blocks)
    && b.file == Encoded(codec, b.blocks)
    && b.index == IndexFor(codec, b.blocks)
  }

  /** `writeDataPart`: serialise the block being filled, append it at the end
      of the file, index it under its first key, and start a new block. */
  function WriteDataPart(codec: TableCodec, b: Builder): (r: Builder)
    requires |b.part| > 0
    ensures Laid(codec, b) ==> Laid(codec, r)
    ensures r.part == [] && r.blocks == b.blocks + [b.part]
  {
    var bytes := codec.encodeBlock(b.part);
    var r := Builder([], b.file + bytes,
                     b.index + [IndexEntry(b.part[0].key, Position(|b.file|, |bytes|))],
                     b.blocks + [b.part]);
    assert r.blocks[..|r.blocks| - 1] == b.blocks;
    r
  }

  /** `partData.size() >= partSize`: the block being filled is written out. */
  predicate Flushes(size: int, partSize: int)
  {
    size >= partSize
  }

  /** The size of every block but the last: `partSize`, or one when
      `partSize` is below one, since a block never holds zero entries. */
  function EffectivePartSize(partSize: int): (r: nat)
    ensures r >= 1
    ensures forall n :: n >= 1 ==> (Flushes(n, partSize) <==> n >= r)
  {
    if partSize < 1 then 1 else partSize
  }

  /** One pass of `initFromIndex`'s loop: put the command into the block
      being filled, and write the block out once it is full. */
  function Step(codec: TableCodec, partSize: int, b: Builder, c: Command): (r: Builder)
    ensures Laid(codec, b) ==> Laid(codec, r)
  {
    var grown := b.(part := b.part + [c]);
    if Flushes(|grown.part|, partSize) then WriteDataPart(codec, grown) else grown
  }

  /** The loop of `initFromIndex` over the commands in key order. */
  function Fill(codec: TableCodec, partSize: int, entries: Entries, b: Builder): (r: Builder)
    ensures Laid(codec, b) ==> Laid(codec, r)
    decreases |entries|
  {
    if |entries| == 0 then b
    else Fill(codec, partSize, entries[1..], Step(codec, partSize, b, entries[0]))
  }

  /** The trailing write after the loop, of a block that did not fill up. */
  function FlushRest(codec: TableCodec, b: Builder): (r: Builder)
    ensures Laid(codec, b) ==> Laid(codec, r)
    ensures r.blocks == if |b.part| > 0 then b.blocks + [b.part] else b.blocks
  {
    if |b.part| > 0 then WriteDataPart(codec, b) else b
  }

  /** The version `TableMetaInfo` is created with. */
  const InitialVersion: int64 := 0

  /** The loop of `initFromIndex` and its trailing write, from an empty file. */
  function DataPart(codec: TableCodec, partSize: int, entries: Entries): (r: Builder)
    ensures Laid(codec, r)
  {
    var empty := Builder([], [], [], []);
    assert Laid(codec, empty);
    FlushRest(codec, Fill(codec, partSize, entries, empty))
  }

  /** The footer fields `initFromIndex` sets: the data part from offset 0,
      the index right after it, the file size recorded as the data length. */
  function Footer(fileNumber: int64, partSize: int32, dataLen: int64, indexLen: int64,
                  smallest: Key, largest: Key): (m: TableMeta.TableMetaInfo)
    ensures m.number == fileNumber && m.partSize == partSize
    ensures m.dataStart == 0 && m.dataLen == m.indexStart == m.fileSize == dataLen
    ensures m.indexLen == indexLen
    ensures m.smallestKey == smallest && m.largestKey == largest
  {
    TableMeta.TableMetaInfo(InitialVersion, fileNumber, 0, dataLen, dataLen, indexLen, partSize, dataLen,
                            smallest, largest)
  }

  /** Every byte array `initFromIndex` allocates fits in a Java array: each
      block's, the index's, and each footer key's. */
  predicate ArraysFit(codec: TableCodec, blocks: seq<Block>, indexBytes: seq<byte>, smallest: Key, largest: Key)
  {
    && (forall i :: 0 <= i < |blocks| ==> |codec.encodeBlock(blocks[i])| <= MaxArrayLength)
    && |indexBytes| <= MaxArrayLength
    && TableMeta.KeyFits(smallest) && TableMeta.KeyFits(largest)
  }

  /** `createFromIndex(fileNumber, partSize, index, _, level)`: the table file
      written from the entries of a sorted map, into a new file. The errors
      are those `initFromIndex` raises: `firstKey` of an empty map, a byte
      array beyond Java's limit, a file beyond the largest `long` offset. */
  function InitFromIndex(codec: TableCodec, fileNumber: int64, partSize: int32, level: int32,
                         entries: Entries): (r: Result<Table>)
    requires Sorted(entries)
    ensures |entries| == 0 ==> r == Failure(NoSuchElement)
    ensures r.Failure? ==> r.error in {NoSuchElement, OutOfMemory, IoError}
    ensures r.Success? ==> r.value.meta.number == fileNumber && r.value.level == level
                           && r.value.meta.partSize == partSize
  {
    if |entries| == 0 then Failure(NoSuchElement)
    else
      var data := DataPart(codec, partSize, entries);
      var indexBytes := codec.encodeIndex(data.index);
      var smallest, largest := entries[0].key, entries[|entries| - 1].key;
      if !ArraysFit(codec, data.blocks, indexBytes, smallest, largest) then Failure(OutOfMemory)
      else if |data.file| + |indexBytes| + |Utf8.Encode(smallest)| + |Utf8.Encode(largest)|
              + TableMeta.FixedFooterLen > MaxLong
      then Failure(IoError)
      else
        var meta := Footer(fileNumber, partSize, |data.file|, |indexBytes|, smallest, largest);
        Success(Table(meta, level, data.index, data.blocks, data.file + indexBytes + TableMeta.WriteToFile(meta)))
  }

  // ---------------------------------------------------------------------------
  // query.
  // ---------------------------------------------------------------------------

  /** `readJsonObject(position)`: `new byte[(int) len]`, `seek(start)`, `read`
      (which leaves what lies past the end of the file zero), then parse. */
  function ReadBlock(codec: TableCodec, f: seq<byte>, pos: Position): (r: Result<Block>)
    ensures r.Success? ==> pos.start >= 0
    ensures 0 <= pos.start && 0 <= pos.len <= MaxArrayLength && pos.start + pos.len <= |f|
            ==> r == (match codec.decodeBlock(f[pos.start..pos.start + pos.len])
                      case None => Failure(MalformedText)
                      case Some(b) => Success(b))
  {
    var n: int := if -0x8000_0000_0000_0000 <= pos.len <= MaxLong then NarrowToInt(pos.len) else -1;
    if n < 0 then Failure(NegativeArraySize)
    else if pos.start < 0 then Failure(IoError)
    else
      match codec.decodeBlock(ReadPadded(f, pos.start, n))
      case None => Failure(MalformedText)
      case Some(b) => Success(b)
  }

  /** The positions of the leading index entries whose first key is not
      above `k`, in index order. */
  function Candidates(index: seq<IndexEntry>, k: Key): (r: seq<Position>)
    ensures |r| <= |index|
    ensures forall i :: 0 <= i < |r| ==> r[i] == index[i].pos && Le(index[i].firstKey, k)
    ensures |r| < |index| ==> Lt(k, index[|r|].firstKey)
  {
    if |index| == 0 then []
    else if Le(index[0].firstKey, k) then
      var rest := Candidates(index[1..], k);
      [index[0].pos] + rest
    else []
  }

  /** The candidate blocks in turn: the first holding `k` answers. */
  function Scan(codec: TableCodec, f: seq<byte>, ps: seq<Position>, k: Key): (r: Result<Option<Command>>)
    ensures r.Success? && r.value.Some? ==> r.value.value.key == k
  {
    if |ps| == 0 then Success(None)
    else
      var block :- ReadBlock(codec, f, ps[0]);
      match Get(block, k)
      case Some(c) =>
        GetSound(block, k);
        Success(Some(c))
      case None => Scan(codec, f, ps[1..], k)
  }

  /** `query(key)`. */
  function Query(codec: TableCodec, t: Table, k: Key): (r: Result<Option<Command>>)
    ensures r.Success? && r.value.Some? ==> r.value.value.key == k
    ensures |t.index| == 0 || Lt(k, t.index[0].firstKey) ==> r == Success(None)
  {
    var candidates := Candidates(t.index, k);
    if |candidates| == 0 then Success(None)
    else Scan(codec, t.file, candidates, k)
  }

  // ---------------------------------------------------------------------------
  // What a well-formed table is, and what building one gives.
  // ---------------------------------------------------------------------------

  /** A table whose index and data part agree with its blocks: the blocks
      hold the commands in strictly ascending key order, each block is
      written where the index says, and the footer keys are the first and
      last key. */
  predicate WellFormed(codec: TableCodec, t: Table)
  {
    && |t.blocks| > 0
    && NonEmptyBlocks(t.blocks)
    && (forall i :: 0 <= i < |t.blocks| ==> |codec.encodeBlock(t.blocks[i])| <= MaxArrayLength)
    && Sorted(Flatten(t.blocks))
    && t.index == IndexFor(codec, t.blocks)
    && |Encoded(codec, t.blocks)| <= |t.file|
    && t.file[..|Encoded(codec, t.blocks)|] == Encoded(codec, t.blocks)
    && |Flatten(t.blocks)| > 0
    && t.meta.smallestKey == Flatten(t.blocks)[0].key
    && t.meta.largestKey == Flatten(t.blocks)[|Flatten(t.blocks)| - 1].key
  }

  lemma {:induction false} FlattenAppend(a: seq<Block>, b: seq<Block>)
    ensures Flatten(a + b) == Flatten(a) + Flatten(b)
    decreases |a|
  {
    if |a| == 0 {
      assert a + b == b;
    } else {
      assert (a + b)[0] == a[0] && (a + b)[1..] == a[1..] + b;
      FlattenAppend(a[1..], b);
    }
  }

  /** Every block but the last holds `size` entries, the last between one and
      `size`; together they are `e`. */
  lemma {:induction false} ChunksShape(e: Entries, size: nat)
    requires size >= 1
    ensures Flatten(Chunks(e, size)) == e
    ensures NonEmptyBlocks(Chunks(e, size))
    ensures forall i :: 0 <= i < |Chunks(e, size)| - 1 ==> |Chunks(e, size)[i]| == size
    ensures |Chunks(e, size)| > 0 ==> |Chunks(e, size)[|Chunks(e, size)| - 1]| <= size
    decreases |e|
  {
    var r := Chunks(e, size);
    if |e| > size {
      var rest := Chunks(e[size..], size);
      ChunksShape(e[size..], size);
      assert r == [e[..size]] + rest;
      assert r[0] == e[..size] && r[1..] == rest;
      assert e == e[..size] + e[size..];
      assert forall i :: 1 <= i < |r| ==> r[i] == rest[i - 1];
    } else if |e| > 0 {
      assert r == [e];
      assert Flatten(r) == e + Flatten(r[1..]);
    }
  }

  /** There are ⌈|e| / size⌉ blocks. */
  lemma {:induction false} ChunksCount(e: Entries, size: nat)
    requires size >= 1
    ensures |e| == 0 <==> |Chunks(e, size)| == 0
    ensures |e| > 0 ==> (|Chunks(e, size)| - 1) * size < |e| <= |Chunks(e, size)| * size
    decreases |e|
  {
    if |e| > size {
      var rest := Chunks(e[size..], size);
      ChunksCount(e[size..], size);
      assert |Chunks(e, size)| == |rest| + 1;
      assert (|rest| + 1) * size == |rest| * size + size;
    }
  }

  /** The builder's loop and the trailing write produce exactly the
      reference chunks of what is still to be written. */
  lemma {:induction false} FillChunks(codec: TableCodec, partSize: int, entries: Entries, b: Builder)
    requires |b.part| < EffectivePartSize(partSize)
    ensures FlushRest(codec, Fill(codec, partSize, entries, b)).blocks
            == b.blocks + Chunks(b.part + entries, EffectivePartSize(partSize))
    decreases |entries|
  {
    if |entries| == 0 {
      assert b.part + entries == b.part;
      FlushChunks(codec, b, EffectivePartSize(partSize));
    } else {
      var next := Step(codec, partSize, b, entries[0]);
      assert Fill(codec, partSize, entries, b) == Fill(codec, partSize, entries[1..], next);
      StepChunks(codec, partSize, b, entries[0], entries[1..]);
      FillChunks(codec, partSize, entries[1..], next);
      assert b.part + entries == b.part + [entries[0]] + entries[1..];
    }
  }

  /** The trailing write is the last, short, chunk. */
  lemma FlushChunks(codec: TableCodec, b: Builder, size: nat)
    requires 1 <= size && |b.part| < size
    ensures FlushRest(codec, b).blocks == b.blocks + Chunks(b.part, size)
  {
    if |b.part| == 0 {
      assert b.blocks + [] == b.blocks;
    }
  }

  /** One pass of the loop keeps the written blocks plus the chunks of what
      remains unchanged. */
  lemma StepChunks(codec: TableCodec, partSize: int, b: Builder, c: Command, rest: Entries)
    requires |b.part| < EffectivePartSize(partSize)
    ensures |Step(codec, partSize, b, c).part| < EffectivePartSize(partSize)
    ensures Step(codec, partSize, b, c).blocks + Chunks(Step(codec, partSize, b, c).part + rest, EffectivePartSize(partSize))
            == b.blocks + Chunks(b.part + [c] + rest, EffectivePartSize(partSize))
  {
    var size := EffectivePartSize(partSize);
    var grown := b.part + [c];
    assert Flushes(|grown|, partSize) <==> |grown| >= size;
    if Flushes(|grown|, partSize) {
      ChunksFull(grown, rest, size);
      assert [] + rest == rest;
    }
  }

  /** A full first block is cut off as it is. */
  lemma ChunksFull(part: Entries, rest: Entries, size: nat)
    requires size >= 1 && |part| == size
    ensures Chunks(part + rest, size) == [part] + Chunks(rest, size)
  {
    var e := part + rest;
    if |rest| == 0 {
      assert e == part;
    } else {
      assert e[..size] == part && e[size..] == rest;
    }
  }

  /** Where the index puts block `i`: after the bytes of the blocks before it. */
  lemma {:induction false} IndexForAt(codec: TableCodec, bs: seq<Block>, i: int)
    requires NonEmptyBlocks(bs) && 0 <= i < |bs|
    ensures IndexFor(codec, bs)[i]
            == IndexEntry(bs[i][0].key, Position(|Encoded(codec, bs[..i])|, |codec.encodeBlock(bs[i])|))
    decreases |bs|
  {
    var front := bs[..|bs| - 1];
    if i < |bs| - 1 {
      assert front[i] == bs[i] && front[..i] == bs[..i];
      IndexForAt(codec, front, i);
    }
  }

  /** The bytes of the first `j` blocks begin the bytes of all of them. */
  lemma {:induction false} EncodedPrefix(codec: TableCodec, bs: seq<Block>, j: int)
    requires 0 <= j <= |bs|
    ensures |Encoded(codec, bs[..j])| <= |Encoded(codec, bs)|
    ensures Encoded(codec, bs)[..|Encoded(codec, bs[..j])|] == Encoded(codec, bs[..j])
    decreases |bs|
  {
    if j == |bs| {
      assert bs[..j] == bs;
    } else {
      var front := bs[..|bs| - 1];
      assert front[..j] == bs[..j];
      EncodedPrefix(codec, front, j);
    }
  }

  /** Block `i`'s bytes lie at the position the index gives. */
  lemma BlockBytes(codec: TableCodec, bs: seq<Block>, i: int)
    requires NonEmptyBlocks(bs) && 0 <= i < |bs|
    ensures var p := IndexFor(codec, bs)[i].pos;
      && 0 <= p.start && 0 <= p.len && p.start + p.len <= |Encoded(codec, bs)|
      && Encoded(codec, bs)[p.start..p.start + p.len] == codec.encodeBlock(bs[i])
  {
    IndexForAt(codec, bs, i);
    EncodedPrefix(codec, bs, i + 1);
    assert bs[..i + 1][..i] == bs[..i];
    var before, mine := Encoded(codec, bs[..i]), codec.encodeBlock(bs[i]);
    assert Encoded(codec, bs[..i + 1]) == before + mine;
    var all := Encoded(codec, bs);
    assert all[|before|..|before| + |mine|] == (before + mine)[|before|..];
  }

  /** Blocks are contiguous from offset 0: each starts where the previous
      one ends, and the last ends where the data part does. */
  lemma IndexContiguous(codec: TableCodec, bs: seq<Block>)
    requires NonEmptyBlocks(bs)
    ensures |bs| > 0 ==> IndexFor(codec, bs)[0].pos.start == 0
    ensures forall i :: 0 <= i < |bs| - 1 ==>
      IndexFor(codec, bs)[i + 1].pos.start == IndexFor(codec, bs)[i].pos.start + IndexFor(codec, bs)[i].pos.len
    ensures |bs| > 0 ==>
      IndexFor(codec, bs)[|bs| - 1].pos.start + IndexFor(codec, bs)[|bs| - 1].pos.len == |Encoded(codec, bs)|
  {
    if |bs| > 0 {
      IndexForAt(codec, bs, 0);
      assert bs[..0] == [];
      forall i | 0 <= i < |bs| - 1
        ensures IndexFor(codec, bs)[i + 1].pos.start == IndexFor(codec, bs)[i].pos.start + IndexFor(codec, bs)[i].pos.len
      {
        IndexForAt(codec, bs, i);
        IndexForAt(codec, bs, i + 1);
        assert bs[..i + 1][..i] == bs[..i];
      }
      IndexForAt(codec, bs, |bs| - 1);
    }
  }

  /** The first entry of the blocks from `i` on is block `i`'s first. */
  lemma FlattenFrom(bs: seq<Block>, i: int)
    requires NonEmptyBlocks(bs) && 0 <= i < |bs|
    ensures Flatten(bs) == Flatten(bs[..i]) + Flatten(bs[i..])
    ensures |Flatten(bs[i..])| > 0 && Flatten(bs[i..])[0] == bs[i][0]
  {
    assert bs == bs[..i] + bs[i..];
    FlattenAppend(bs[..i], bs[i..]);
    assert bs[i..][0] == bs[i];
  }

  /** Block `i`'s first entry sits after all the entries of the blocks before it. */
  lemma FirstOfBlock(bs: seq<Block>, i: int)
    requires NonEmptyBlocks(bs) && 0 <= i < |bs|
    ensures |Flatten(bs[..i])| < |Flatten(bs)|
    ensures Flatten(bs)[|Flatten(bs[..i])|] == bs[i][0]
  {
    FlattenFrom(bs, i);
  }

  /** Later blocks start further along. */
  lemma OffsetsGrow(bs: seq<Block>, i: int, j: int)
    requires NonEmptyBlocks(bs) && 0 <= i < j <= |bs|
    ensures |Flatten(bs[..i])| < |Flatten(bs[..j])|
  {
    assert bs[..j] == bs[..i] + ([bs[i]] + bs[i + 1..j]);
    FlattenAppend(bs[..i], [bs[i]] + bs[i + 1..j]);
    FlattenAppend([bs[i]], bs[i + 1..j]);
    assert Flatten([bs[i]]) == bs[i] + Flatten([bs[i]][1..]);
  }

  /** Sparse-index keys strictly ascend: one entry per block, each block's
      first key above the previous block's. */
  lemma IndexKeysAscend(codec: TableCodec, bs: seq<Block>)
    requires NonEmptyBlocks(bs) && Sorted(Flatten(bs))
    ensures |IndexFor(codec, bs)| == |bs|
    ensures forall i, j :: 0 <= i < j < |bs| ==>
      Lt(IndexFor(codec, bs)[i].firstKey, IndexFor(codec, bs)[j].firstKey)
  {
    forall i, j | 0 <= i < j < |bs|
      ensures Lt(IndexFor(codec, bs)[i].firstKey, IndexFor(codec, bs)[j].firstKey)
    {
      IndexForAt(codec, bs, i);
      IndexForAt(codec, bs, j);
      FirstOfBlock(bs, i);
      FirstOfBlock(bs, j);
      OffsetsGrow(bs, i, j);
    }
  }

  // ---------------------------------------------------------------------------
  // Building a table, then reading it back.
  // ---------------------------------------------------------------------------

  /** The data part `initFromIndex` writes: the entries cut into blocks of
      the part size, laid out one after another. */
  lemma BuiltData(codec: TableCodec, partSize: int, entries: Entries)
    ensures DataPart(codec, partSize, entries).blocks == Chunks(entries, EffectivePartSize(partSize))
    ensures Flatten(DataPart(codec, partSize, entries).blocks) == entries
    ensures |entries| > 0 <==> |DataPart(codec, partSize, entries).blocks| > 0
  {
    var size := EffectivePartSize(partSize);
    FillChunks(codec, partSize, entries, Builder([], [], [], []));
    assert [] + entries == entries;
    ChunksShape(entries, size);
    ChunksCount(entries, size);
  }

  /** A table built from a sorted map is well formed: its blocks are the
      map's entries cut into blocks of `partSize` (at least one), the data
      part starts at offset 0 and the index right after it, the footer
      keys are the first and last key, and the footer reads back. */
  lemma InitFromIndexLayout(codec: TableCodec, fileNumber: int64, partSize: int32, level: int32,
                            entries: Entries)
    requires Sorted(entries)
    requires InitFromIndex(codec, fileNumber, partSize, level, entries).Success?
    ensures var t := InitFromIndex(codec, fileNumber, partSize, level, entries).value;
      && WellFormed(codec, t)
      && t.blocks == Chunks(entries, EffectivePartSize(partSize))
      && Flatten(t.blocks) == entries
      && t.meta.dataStart == 0
      && t.meta.dataLen == |Encoded(codec, t.blocks)| == t.meta.indexStart
      && t.meta.smallestKey == entries[0].key
      && t.meta.largestKey == entries[|entries| - 1].key
      && TableMeta.ReadFromFile(t.file) == Success(TableMeta.Persisted(t.meta))
  {
    var t := InitFromIndex(codec, fileNumber, partSize, level, entries).value;
    var data := DataPart(codec, partSize, entries);
    var indexBytes := codec.encodeIndex(data.index);
    BuiltTable(codec, fileNumber, partSize, level, entries);
    BuiltData(codec, partSize, entries);
    TableFrom(codec, t, data, indexBytes, TableMeta.WriteToFile(t.meta));
    TableMeta.ReadWriteRoundTrip(data.file + indexBytes, t.meta);
  }

  /** What a successful `initFromIndex` assembles: the data part, the index
      bytes, then the footer. */
  lemma BuiltTable(codec: TableCodec, fileNumber: int64, partSize: int32, level: int32,
                   entries: Entries)
    requires Sorted(entries)
    requires InitFromIndex(codec, fileNumber, partSize, level, entries).Success?
    ensures var t := InitFromIndex(codec, fileNumber, partSize, level, entries).value;
      var data := DataPart(codec, partSize, entries);
      && |entries| > 0
      && t.blocks == data.blocks && t.index == data.index
      && TableMeta.KeyFits(t.meta.smallestKey) && TableMeta.KeyFits(t.meta.largestKey)
      && t.file == data.file + codec.encodeIndex(data.index) + TableMeta.WriteToFile(t.meta)
      && t.meta.dataStart == 0 && t.meta.dataLen == t.meta.indexStart == |data.file|
      && t.meta.smallestKey == entries[0].key && t.meta.largestKey == entries[|entries| - 1].key
      && forall i :: 0 <= i < |data.blocks| ==> |codec.encodeBlock(data.blocks[i])| <= MaxArrayLength
  {
  }

  /** When the first and last keys are ASCII, the table file is byte for
      byte what `writeToFile` as written appends, and its footer reads back. */
  lemma BuiltAsWritten(codec: TableCodec, fileNumber: int64, partSize: int32, level: int32,
                       entries: Entries)
    requires Sorted(entries)
    requires InitFromIndex(codec, fileNumber, partSize, level, entries).Success?
    requires Utf8.IsAscii(entries[0].key) && Utf8.IsAscii(entries[|entries| - 1].key)
    ensures var t := InitFromIndex(codec, fileNumber, partSize, level, entries).value;
      var data := DataPart(codec, partSize, entries);
      && t.file == data.file + codec.encodeIndex(data.index) + TableMeta.WriteToFileAsWritten(t.meta)
      && TableMeta.ReadFromFile(t.file) == Success(TableMeta.Persisted(t.meta))
  {
    var t := InitFromIndex(codec, fileNumber, partSize, level, entries).value;
    BuiltTable(codec, fileNumber, partSize, level, entries);
    InitFromIndexLayout(codec, fileNumber, partSize, level, entries);
    TableMeta.AsWrittenAsciiSame(t.meta);
  }

  /** A table whose data part, index and blocks come from a laid-out builder
      over sorted commands is well formed. */
  lemma TableFrom(codec: TableCodec, t: Table, data: Builder, indexBytes: seq<byte>, footer: seq<byte>)
    requires Laid(codec, data) && |data.blocks| > 0 && Sorted(Flatten(data.blocks))
    requires forall i :: 0 <= i < |data.blocks| ==> |codec.encodeBlock(data.blocks[i])| <= MaxArrayLength
    requires t.blocks == data.blocks && t.index == data.index
    requires t.file == data.file + indexBytes + footer
    requires |Flatten(t.blocks)| > 0
    requires t.meta.smallestKey == Flatten(t.blocks)[0].key
    requires t.meta.largestKey == Flatten(t.blocks)[|Flatten(t.blocks)| - 1].key
    ensures WellFormed(codec, t)
  {
    assert t.file[..|data.file|] == data.file;
  }

  /** Block `i` of a well-formed table reads back from where the index puts it. */
  lemma BlockRead(codec: TableCodec, t: Table, i: int)
    requires Invertible(codec) && WellFormed(codec, t) && 0 <= i < |t.blocks|
    ensures ReadBlock(codec, t.file, t.index[i].pos) == Success(t.blocks[i])
  {
    BlockBytes(codec, t.blocks, i);
    IndexForAt(codec, t.blocks, i);
    var p := t.index[i].pos;
    var all := Encoded(codec, t.blocks);
    assert p == IndexFor(codec, t.blocks)[i].pos;
    assert t.file[..|all|] == all;
    Seqs.SliceOfPrefix(t.file, |all|, p.start, p.start + p.len);
  }

  /** Scanning the positions of blocks `m` to `n` of a well-formed table
      answers as a lookup in their commands does. */
  lemma {:induction false} ScanBlocks(codec: TableCodec, t: Table, ps: seq<Position>, m: int, n: int, k: Key)
    requires Invertible(codec) && WellFormed(codec, t)
    requires 0 <= m <= n <= |t.blocks| && |ps| == n - m
    requires forall x :: 0 <= x < |ps| ==> ps[x] == t.index[m + x].pos
    ensures Scan(codec, t.file, ps, k) == Success(Get(Flatten(t.blocks[m..n]), k))
    decreases |ps|
  {
    if m < n {
      BlockRead(codec, t, m);
      var rest := t.blocks[m + 1..n];
      assert t.blocks[m..n][1..] == rest;
      GetAppend(t.blocks[m], Flatten(rest), k);
      ScanBlocks(codec, t, ps[1..], m + 1, n, k);
    }
  }

  /** `query` on a well-formed table finds exactly the command the table
      holds for the key, tombstones included, and never fails. */
  lemma QueryFinds(codec: TableCodec, t: Table, k: Key)
    requires Invertible(codec) && WellFormed(codec, t)
    ensures Query(codec, t, k) == Success(Get(Flatten(t.blocks), k))
  {
    var ps := Candidates(t.index, k);
    var n := |ps|;
    ScanBlocks(codec, t, ps, 0, n, k);
    assert t.blocks[0..n] == t.blocks[..n];
    if n < |t.blocks| {
      IndexForAt(codec, t.blocks, n);
      FlattenFrom(t.blocks, n);
      SortedSuffix(Flatten(t.blocks[..n]), Flatten(t.blocks[n..]));
      GetBelowHead(Flatten(t.blocks[n..]), k);
      GetAppend(Flatten(t.blocks[..n]), Flatten(t.blocks[n..]), k);
    } else {
      assert t.blocks[..n] == t.blocks;
    }
  }

  /** Building a table from a sorted map and querying it answers as the
      map does: the command stored under the key, a tombstone included, or
      nothing. */
  lemma BuildThenQuery(codec: TableCodec, fileNumber: int64, partSize: int32, level: int32,
                       entries: Entries, k: Key)
    requires Invertible(codec) && Sorted(entries)
    requires InitFromIndex(codec, fileNumber, partSize, level, entries).Success?
    ensures Query(codec, InitFromIndex(codec, fileNumber, partSize, level, entries).value, k)
            == Success(Get(entries, k))
  {
    InitFromIndexLayout(codec, fileNumber, partSize, level, entries);
    QueryFinds(codec, InitFromIndex(codec, fileNumber, partSize, level, entries).value, k);
  }

  /** The commands a table holds. */
  function Contents(t: Table): Entries
  {
    Flatten(t.blocks)
  }

  /** Every key of a well-formed table lies within its footer range, so the
      range is not empty. */
  lemma WithinRange(codec: TableCodec, t: Table)
    requires WellFormed(codec, t)
    ensures Le(t.SmallestKey(), t.LargestKey())
    ensures forall i :: 0 <= i < |Contents(t)| ==>
      Le(t.SmallestKey(), Contents(t)[i].key) && Le(Contents(t)[i].key, t.LargestKey())
  {
    Bounded(Flatten(t.blocks));
  }

  /** A key outside a well-formed table's footer range is not in it. */
  lemma OutsideRangeAbsent(codec: TableCodec, t: Table, k: Key)
    requires WellFormed(codec, t)
    requires Lt(k, t.SmallestKey()) || Lt(t.LargestKey(), k)
    ensures Get(Contents(t), k) == None
  {
    if Lt(k, t.SmallestKey()) {
      GetBelowHead(Flatten(t.blocks), k);
    } else {
      GetAboveLast(Flatten(t.blocks), k);
    }
  }
}
