/** The level-0 compaction (`Compactioner`). When level 0 holds more than
    three tables, the newest level-0 table and the level-0 tables that
    overlap it, together with the level-1 tables overlapping their union
    range, are merged oldest first into one new level-1 table, and the
    inputs leave their levels. Any exception is caught and logged, so a
    failed compaction leaves the levels as they were. */
module Compaction {
  import opened Wrappers
  import opened Keys
  import opened Commands
  import opened SortedMap
  import opened Bytes
  import opened SsTable
  import Sorting
  import Seqs

  /** Level 0 is compacted once it holds more than this many tables. */
  const L0MaxFiles: nat := 3

  /** The part size of a compacted table. */
  const CompactedPartSize: int32 := 4

  // ---------------------------------------------------------------------------
  // Choosing the inputs.
  // ---------------------------------------------------------------------------

  /** The tables of `ts` that `keep` admits, in their order. */
  function Keep(ts: seq<Table>, keep: Table -> bool): (r: seq<Table>)
    ensures |r| <= |ts|
    ensures forall t :: t in r <==> t in ts && keep(t)
  {
    if |ts| == 0 then []
    else
      assert ts == [ts[0]] + ts[1..];
      (if keep(ts[0]) then [ts[0]] else []) + Keep(ts[1..], keep)
  }

  /** Keeping distributes over concatenation, so the kept tables keep their
      order. */
  lemma {:induction false} KeepAppend(a: seq<Table>, b: seq<Table>, keep: Table -> bool)
    ensures Keep(a + b, keep) == Keep(a, keep) + Keep(b, keep)
    decreases |a|
  {
    if |a| == 0 {
      assert a + b == b;
    } else {
      assert (a + b)[0] == a[0] && (a + b)[1..] == a[1..] + b;
      KeepAppend(a[1..], b, keep);
    }
  }

  /** One table is kept exactly when it is admitted. */
  lemma KeepOne(t: Table, keep: Table -> bool)
    ensures Keep([t], keep) == if keep(t) then [t] else []
  {
    assert [t][1..] == [];
  }

  /** The inclusive interval test: the table's range meets `[lo, hi]`. */
  predicate Overlaps(t: Table, lo: Key, hi: Key)
  {
    !(Lt(t.LargestKey(), lo) || Lt(hi, t.SmallestKey()))
  }

  /** `findOverlapSstables(lo, hi, ts)`; a level that does not exist is
      empty here. */
  function FindOverlap(lo: Key, hi: Key, ts: seq<Table>): (r: seq<Table>)
    ensures forall t :: t in r <==> t in ts && Overlaps(t, lo, hi)
  {
    Keep(ts, (t: Table) => Overlaps(t, lo, hi))
  }

  /** `containTheSstable(ts, n)`. */
  function ContainTheSstable(ts: seq<Table>, n: int64): (r: bool)
    ensures r <==> exists i :: 0 <= i < |ts| && ts[i].Number() == n
  {
    if |ts| == 0 then false
    else if ts[0].Number() == n then true
    else
      var rest := ContainTheSstable(ts[1..], n);
      assert rest ==> exists i :: 0 <= i < |ts[1..]| && ts[1..][i].Number() == n;
      assert forall i :: 1 <= i < |ts| ==> ts[i] == ts[1..][i - 1];
      rest
  }

  /** The removal loops: the tables of `ts` whose number is not that of a
      table of `removed`, in their order. */
  function Without(ts: seq<Table>, removed: seq<Table>): (r: seq<Table>)
    ensures forall t :: t in r <==> t in ts && !ContainTheSstable(removed, t.Number())
  {
    Keep(ts, (t: Table) => !ContainTheSstable(removed, t.Number()))
  }

  /** `stream().max(comparingLong(getFileNumber))`, which keeps the earlier
      of two equal tables: the position of the first table with the largest
      number. */
  function Newest(ts: seq<Table>): (i: nat)
    requires |ts| > 0
    ensures i < |ts|
    ensures forall j :: 0 <= j < |ts| ==> ts[j].Number() <= ts[i].Number()
    ensures forall j :: 0 <= j < i ==> ts[j].Number() < ts[i].Number()
  {
    NewestFrom(ts, 0, 1)
  }

  /** The reduction from position `next` on, `best` being the first largest
      before it. */
  function NewestFrom(ts: seq<Table>, best: nat, next: nat): (i: nat)
    requires best < next <= |ts|
    requires forall j :: 0 <= j < next ==> ts[j].Number() <= ts[best].Number()
    requires forall j :: 0 <= j < best ==> ts[j].Number() < ts[best].Number()
    ensures i < |ts|
    ensures forall j :: 0 <= j < |ts| ==> ts[j].Number() <= ts[i].Number()
    ensures forall j :: 0 <= j < i ==> ts[j].Number() < ts[i].Number()
    decreases |ts| - next
  {
    if next == |ts| then best
    else NewestFrom(ts, if ts[next].Number() > ts[best].Number() then next else best, next + 1)
  }

  /** The loop over the level-0 overlap set: the least smallest key and the
      greatest largest key seen so far, `None` while none has been seen
      (both keys are still `null`). */
  function Widen(acc: Option<(Key, Key)>, t: Table): (r: Option<(Key, Key)>)
  {
    match acc
    case None => Some((t.SmallestKey(), t.LargestKey()))
    case Some((lo, hi)) =>
      Some((if Lt(t.SmallestKey(), lo) then t.SmallestKey() else lo,
            if Lt(hi, t.LargestKey()) then t.LargestKey() else hi))
  }

  /** The union range of `ts`, from the running value `acc`. */
  function UnionFrom(acc: Option<(Key, Key)>, ts: seq<Table>): (r: Option<(Key, Key)>)
    decreases |ts|
  {
    if |ts| == 0 then acc else UnionFrom(Widen(acc, ts[0]), ts[1..])
  }

  /** The key range the level-0 overlap set covers, `None` when it is empty. */
  function UnionRange(ts: seq<Table>): Option<(Key, Key)>
  {
    UnionFrom(None, ts)
  }

  /** The running range is bounded by, and attained among, what it has seen. */
  predicate RangeOf(r: (Key, Key), ts: seq<Table>)
  {
    && (exists i :: 0 <= i < |ts| && ts[i].SmallestKey() == r.0)
    && (exists i :: 0 <= i < |ts| && ts[i].LargestKey() == r.1)
    && (forall i :: 0 <= i < |ts| ==> Le(r.0, ts[i].SmallestKey()) && Le(ts[i].LargestKey(), r.1))
  }

  /** Widening by one more table keeps the running range exact. */
  lemma WidenStep(acc: Option<(Key, Key)>, seen: seq<Table>, t: Table)
    requires acc.None? <==> |seen| == 0
    requires acc.Some? ==> RangeOf(acc.value, seen)
    ensures Widen(acc, t).Some? && RangeOf(Widen(acc, t).value, seen + [t])
  {
    var all := seen + [t];
    var r := Widen(acc, t).value;
    assert all[|seen|] == t;
    LtIrreflexive(t.SmallestKey());
    LtIrreflexive(t.LargestKey());
    if acc.Some? {
      var (lo, hi) := acc.value;
      var i :| 0 <= i < |seen| && seen[i].SmallestKey() == lo;
      var j :| 0 <= j < |seen| && seen[j].LargestKey() == hi;
      assert all[i] == seen[i] && all[j] == seen[j];
      forall m | 0 <= m < |all| ensures Le(r.0, all[m].SmallestKey()) && Le(all[m].LargestKey(), r.1) {
        LtTotal(t.SmallestKey(), lo);
        LtTotal(hi, t.LargestKey());
        LeIff(t.SmallestKey(), lo);
        LeIff(hi, t.LargestKey());
        if m < |seen| {
          assert all[m] == seen[m];
          if Lt(t.SmallestKey(), lo) {
            LeTransitive(t.SmallestKey(), lo, seen[m].SmallestKey());
          }
          if Lt(hi, t.LargestKey()) {
            LeTransitive(seen[m].LargestKey(), hi, t.LargestKey());
          }
        }
      }
    }
  }

  /** The union range of a non-empty set is its least smallest key and its
      greatest largest key, both attained; of an empty set it is `None`. */
  lemma {:induction false} UnionRangeBounds(ts: seq<Table>)
    ensures UnionRange(ts).None? <==> |ts| == 0
    ensures UnionRange(ts).Some? ==> RangeOf(UnionRange(ts).value, ts)
  {
    UnionFromBounds(None, [], ts);
    assert [] + ts == ts;
  }

  lemma {:induction false} UnionFromBounds(acc: Option<(Key, Key)>, seen: seq<Table>, ts: seq<Table>)
    requires acc.None? <==> |seen| == 0
    requires acc.Some? ==> RangeOf(acc.value, seen)
    ensures UnionFrom(acc, ts).None? <==> |seen + ts| == 0
    ensures UnionFrom(acc, ts).Some? ==> RangeOf(UnionFrom(acc, ts).value, seen + ts)
    decreases |ts|
  {
    if |ts| > 0 {
      WidenStep(acc, seen, ts[0]);
      UnionFromBounds(Widen(acc, ts[0]), seen + [ts[0]], ts[1..]);
      assert [ts[0]] + ts[1..] == ts;
      Seqs.Assoc(seen, [ts[0]], ts[1..]);
    } else {
      assert seen + ts == seen;
    }
  }

  // ---------------------------------------------------------------------------
  // Merging.
  // ---------------------------------------------------------------------------

  /** `readSstableContent`: the blocks in index order, each put into one
      map, stopping quietly at the first block that cannot be read. */
  function ReadContent(codec: TableCodec, t: Table): (r: Entries)
    ensures Sorted(r)
  {
    ReadBlocks(codec, t.file, t.index, [])
  }

  function ReadBlocks(codec: TableCodec, f: seq<byte>, index: seq<IndexEntry>, acc: Entries): (r: Entries)
    requires Sorted(acc)
    ensures Sorted(r)
    decreases |index|
  {
    if |index| == 0 then acc
    else
      match ReadBlock(codec, f, index[0].pos)
      case Failure(_) => acc
      case Success(block) => ReadBlocks(codec, f, index[1..], PutAll(acc, block))
  }

  /** Reading a well-formed table's content gives exactly the commands it
      holds, tombstones included. */
  lemma ReadContentFull(codec: TableCodec, t: Table)
    requires Invertible(codec) && WellFormed(codec, t)
    ensures ReadContent(codec, t) == Contents(t)
  {
    assert t.blocks[..0] == [];
    ReadBlocksFrom(codec, t, 0);
    assert t.index[0..] == t.index && t.blocks[..|t.blocks|] == t.blocks;
    PutAllSorted(Contents(t));
  }

  lemma {:induction false} ReadBlocksFrom(codec: TableCodec, t: Table, m: nat)
    requires Invertible(codec) && WellFormed(codec, t) && m <= |t.blocks|
    ensures ReadBlocks(codec, t.file, t.index[m..], PutAll([], Flatten(t.blocks[..m])))
            == PutAll([], Flatten(t.blocks))
    decreases |t.blocks| - m
  {
    if m == |t.blocks| {
      assert t.blocks[..m] == t.blocks && t.index[m..] == [];
    } else {
      BlockRead(codec, t, m);
      var before := PutAll([], Flatten(t.blocks[..m]));
      ReadStep(codec, t.file, t.index[m..], before, t.blocks[m]);
      assert t.index[m..][1..] == t.index[m + 1..];
      FlattenSnoc(t.blocks, m);
      PutAllAppend([], Flatten(t.blocks[..m]), t.blocks[m]);
      ReadBlocksFrom(codec, t, m + 1);
    }
  }

  /** Reading one block that reads back puts its commands. */
  lemma ReadStep(codec: TableCodec, f: seq<byte>, index: seq<IndexEntry>, acc: Entries, block: Block)
    requires Sorted(acc) && |index| > 0 && ReadBlock(codec, f, index[0].pos) == Success(block)
    ensures ReadBlocks(codec, f, index, acc) == ReadBlocks(codec, f, index[1..], PutAll(acc, block))
  {
  }

  /** The commands of one more block follow those before it. */
  lemma FlattenSnoc(bs: seq<Block>, m: nat)
    requires m < |bs|
    ensures Flatten(bs[..m + 1]) == Flatten(bs[..m]) + bs[m]
  {
    assert bs[..m + 1] == bs[..m] + [bs[m]];
    FlattenAppend(bs[..m], [bs[m]]);
    assert [bs[m]][1..] == [];
    assert Flatten([bs[m]]) == bs[m] + [];
    assert bs[m] + [] == bs[m];
  }

  /** One table's commands applied to the merge buffer: a `Remove` deletes
      its key, anything else is put. */
  function Apply(merged: Entries, content: Entries): (r: Entries)
    requires Sorted(merged)
    ensures Sorted(r)
    ensures (forall c :: c in merged ==> c.Set?) ==> forall c :: c in r ==> c.Set?
    decreases |content|
  {
    if |content| == 0 then merged
    else
      var next := match content[0]
        case Remove(k) => Delete(merged, k)
        case Set(_, _) => Put(merged, content[0]);
      Apply(next, content[1..])
  }

  /** `mergeSstables`: the tables' contents applied one after another to an
      empty buffer. No tombstone survives. */
  function Merge(contents: seq<Entries>): (r: Entries)
    ensures Sorted(r)
    ensures forall c :: c in r ==> c.Set?
  {
    if |contents| == 0 then []
    else Apply(Merge(contents[..|contents| - 1]), contents[|contents| - 1])
  }

  /** What a key's latest command becomes in the merged table: a value
      stays, a tombstone drops the key. */
  function Surviving(c: Option<Command>): (r: Option<Command>)
  {
    if c.Some? && c.value.Set? then c else None
  }

  /** The command for `k` in the last of `contents` that holds one. */
  function Latest(contents: seq<Entries>, k: Key): (r: Option<Command>)
    ensures r.Some? ==> exists i :: 0 <= i < |contents| && Get(contents[i], k) == r
                                   && forall j :: i < j < |contents| ==> Get(contents[j], k) == None
    ensures r.None? ==> forall i :: 0 <= i < |contents| ==> Get(contents[i], k) == None
  {
    if |contents| == 0 then None
    else
      var n := |contents| - 1;
      var front := contents[..n];
      if Get(contents[n], k).Some? then Get(contents[n], k)
      else
        var r := Latest(front, k);
        assert r.None? ==> forall i :: 0 <= i < |contents| ==> Get(contents[i], k) == None by {
          if r.None? {
            forall i | 0 <= i < n ensures Get(contents[i], k) == None {
              assert contents[i] == front[i];
            }
          }
        }
        assert r.Some? ==> exists i :: 0 <= i < |contents| && Get(contents[i], k) == r
                                     && forall j :: i < j < |contents| ==> Get(contents[j], k) == None by {
          if r.Some? {
            var i :| 0 <= i < n && Get(front[i], k) == r && forall j :: i < j < n ==> Get(front[j], k) == None;
            assert contents[i] == front[i];
            forall j | i < j < |contents| ensures Get(contents[j], k) == None {
              if j < n {
                assert contents[j] == front[j];
              }
            }
          }
        }
        r
  }

  /** Applying one table's commands: the key answers from the table if it
      holds the key, and from the buffer otherwise. */
  lemma {:induction false} ApplyGet(merged: Entries, content: Entries, k: Key)
    requires Sorted(merged) && Sorted(content)
    ensures Get(Apply(merged, content), k)
            == if Get(content, k).Some? then Surviving(Get(content, k)) else Get(merged, k)
    decreases |content|
  {
    if |content| > 0 {
      var c := content[0];
      var next := match c
        case Remove(key) => Delete(merged, key)
        case Set(_, _) => Put(merged, c);
      assert Sorted(content[1..]) by {
        SortedSuffix([c], content[1..]);
        assert [c] + content[1..] == content;
      }
      ApplyGet(next, content[1..], k);
      if c.key == k {
        TailLacksHead(content);
      }
    }
  }

  /** The merge keeps, for every key, the latest command for it if that is
      a value, and nothing if it is a tombstone or absent. */
  lemma {:induction false} MergeWins(contents: seq<Entries>, k: Key)
    requires forall i :: 0 <= i < |contents| ==> Sorted(contents[i])
    ensures Get(Merge(contents), k) == Surviving(Latest(contents, k))
    decreases |contents|
  {
    if |contents| > 0 {
      var n := |contents| - 1;
      var front := contents[..n];
      assert forall i :: 0 <= i < n ==> front[i] == contents[i];
      MergeWins(front, k);
      ApplyGet(Merge(front), contents[n], k);
    }
  }

  // ---------------------------------------------------------------------------
  // doBackgroundCompaction.
  // ---------------------------------------------------------------------------

  /** What a compaction leaves: the two levels, the file counter, the table
      it wrote if any, and the exception `compaction` caught and logged. */
  datatype Compacted = Compacted(
    l0: seq<Table>, l1: seq<Table>, next: int64, created: Option<Table>, error: Option<Error>)

  /** The merge order: ascending file number, older tables first. */
  function OlderFirst(): (Table, Table) -> bool
  {
    (a: Table, b: Table) => a.Number() < b.Number()
  }

  lemma OlderFirstOrder()
    ensures Sorting.StrictWeakOrder(OlderFirst())
  {
  }

  /** The level-0 overlap set and the level-1 overlap set. The seed is the
      newest level-0 table; with an empty level-0 overlap set both union keys
      are `null`, which the interval test dereferences as soon as level 1
      holds a table. */
  function Inputs(l0: seq<Table>, l1: seq<Table>): (r: Result<(seq<Table>, seq<Table>)>)
    requires |l0| > 0
    ensures r.Failure? ==> r.error == NullPointer && |l1| > 0
  {
    var seed := l0[Newest(l0)];
    var fromL0 := FindOverlap(seed.SmallestKey(), seed.LargestKey(), l0);
    match UnionRange(fromL0)
    case None => if |l1| > 0 then Failure(NullPointer) else Success((fromL0, []))
    case Some((lo, hi)) => Success((fromL0, FindOverlap(lo, hi, l1)))
  }

  /** Each input's content, read in merge order. */
  function ReadAll(codec: TableCodec, ts: seq<Table>): (r: seq<Entries>)
    ensures |r| == |ts| && forall i :: 0 <= i < |ts| ==> r[i] == ReadContent(codec, ts[i])
  {
    seq(|ts|, i requires 0 <= i < |ts| => ReadContent(codec, ts[i]))
  }

  /** The merge inputs in merge order. */
  function Ordered(fromL0: seq<Table>, fromL1: seq<Table>): (r: seq<Table>)
    ensures Sorting.SortedBy(r, OlderFirst())
    ensures multiset(r) == multiset(fromL0 + fromL1)
  {
    OlderFirstOrder();
    Sorting.Sort(fromL0 + fromL1, OlderFirst())
  }

  /** `compaction(levels, counter)`, which runs `doBackgroundCompaction` and
      logs whatever it throws. Nothing happens while level 0 holds at most
      three tables. The new table takes the counter's value before it is
      written, so a failed write still consumes a number; no other failure
      changes anything. */
  function Compact(codec: TableCodec, l0: seq<Table>, l1: seq<Table>, next: int64): (r: Compacted)
    ensures |l0| <= L0MaxFiles ==> r == Compacted(l0, l1, next, None, None)
    ensures r.error.Some? ==> r.l0 == l0 && r.l1 == l1 && r.created.None?
    ensures r.error.Some? ==> r.error.value in {NullPointer, NoSuchElement, OutOfMemory, IoError}
    ensures r.created.Some? ==> r.error.None? && r.next == NextLong(next)
                                && r.created.value.Number() == next && r.created.value.level == 1
    ensures |l0| > L0MaxFiles && r.error.None? ==> r.created.Some?
    ensures r.next == next || r.next == NextLong(next)
  {
    if |l0| <= L0MaxFiles then Compacted(l0, l1, next, None, None)
    else
      match Inputs(l0, l1)
      case Failure(e) => Compacted(l0, l1, next, None, Some(e))
      case Success((fromL0, fromL1)) =>
        var merged := Merge(ReadAll(codec, Ordered(fromL0, fromL1)));
        match InitFromIndex(codec, next, CompactedPartSize, 1, merged)
        case Failure(e) => Compacted(l0, l1, NextLong(next), None, Some(e))
        case Success(t) =>
          Compacted(Without(l0, fromL0), Without(l1 + [t], fromL1), NextLong(next), Some(t), None)
  }

  // ---------------------------------------------------------------------------
  // What a compaction guarantees.
  // ---------------------------------------------------------------------------

  /** Removal distributes over concatenation, keeping order. */
  lemma WithoutAppend(a: seq<Table>, b: seq<Table>, removed: seq<Table>)
    ensures Without(a + b, removed) == Without(a, removed) + Without(b, removed)
  {
    KeepAppend(a, b, (t: Table) => !ContainTheSstable(removed, t.Number()));
  }

  /** Finding overlaps distributes over concatenation, keeping order. */
  lemma FindOverlapAppend(lo: Key, hi: Key, a: seq<Table>, b: seq<Table>)
    ensures FindOverlap(lo, hi, a + b) == FindOverlap(lo, hi, a) + FindOverlap(lo, hi, b)
  {
    KeepAppend(a, b, (t: Table) => Overlaps(t, lo, hi));
  }

  /** One table is found exactly when it overlaps. */
  lemma FindOverlapOne(lo: Key, hi: Key, t: Table)
    ensures FindOverlap(lo, hi, [t]) == if Overlaps(t, lo, hi) then [t] else []
  {
    KeepOne(t, (t: Table) => Overlaps(t, lo, hi));
  }

  /** A well-formed newest level-0 table overlaps its own range, so the
      level-0 overlap set holds it, the union range exists and the
      null-key failure cannot happen. */
  lemma SeedSelected(codec: TableCodec, l0: seq<Table>, l1: seq<Table>)
    requires |l0| > 0 && WellFormed(codec, l0[Newest(l0)])
    ensures Inputs(l0, l1).Success?
    ensures l0[Newest(l0)] in Inputs(l0, l1).value.0
    ensures UnionRange(Inputs(l0, l1).value.0).Some?
  {
    var seed := l0[Newest(l0)];
    WithinRange(codec, seed);
    var fromL0 := FindOverlap(seed.SmallestKey(), seed.LargestKey(), l0);
    assert Overlaps(seed, seed.SmallestKey(), seed.LargestKey());
    assert seed in fromL0;
    UnionRangeBounds(fromL0);
  }

  /** Every input of the merge comes from level 0 or level 1; a level-1
      input overlaps the union range of the level-0 inputs. */
  lemma InputsFrom(l0: seq<Table>, l1: seq<Table>, x: Table)
    requires |l0| > 0 && Inputs(l0, l1).Success?
    requires x in Ordered(Inputs(l0, l1).value.0, Inputs(l0, l1).value.1)
    ensures x in Inputs(l0, l1).value.0 || x in Inputs(l0, l1).value.1
    ensures x in Inputs(l0, l1).value.0 ==> x in l0
    ensures x in Inputs(l0, l1).value.1 ==>
      (&& x in l1 && UnionRange(Inputs(l0, l1).value.0).Some?
       && Overlaps(x, UnionRange(Inputs(l0, l1).value.0).value.0, UnionRange(Inputs(l0, l1).value.0).value.1))
  {
    var (fromL0, fromL1) := Inputs(l0, l1).value;
    assert x in multiset(Ordered(fromL0, fromL1));
    assert x in multiset(fromL0 + fromL1);
  }

  /** The contents of the tables, in order. */
  function ContentsOf(ts: seq<Table>): (r: seq<Entries>)
    ensures |r| == |ts| && forall i :: 0 <= i < |ts| ==> r[i] == Contents(ts[i])
  {
    seq(|ts|, i requires 0 <= i < |ts| => Contents(ts[i]))
  }

  /** Reading well-formed tables gives their contents. */
  lemma ReadAllFull(codec: TableCodec, ts: seq<Table>)
    requires Invertible(codec) && forall t :: t in ts ==> WellFormed(codec, t)
    ensures ReadAll(codec, ts) == ContentsOf(ts)
  {
    forall i | 0 <= i < |ts| ensures ReadAll(codec, ts)[i] == ContentsOf(ts)[i] {
      ReadContentFull(codec, ts[i]);
    }
  }

  /** All tables of both levels are well formed. */
  ghost predicate LevelsWellFormed(codec: TableCodec, l0: seq<Table>, l1: seq<Table>)
  {
    (forall t :: t in l0 ==> WellFormed(codec, t)) && (forall t :: t in l1 ==> WellFormed(codec, t))
  }

  /** The table a compaction writes holds, for every key, the latest command
      for it among the inputs taken oldest first when that command is a value,
      and nothing otherwise: recency wins and no tombstone survives. The
      inputs are the two overlap sets, ordered by ascending file number. */
  lemma CompactedContents(codec: TableCodec, l0: seq<Table>, l1: seq<Table>, next: int64, k: Key)
    requires Invertible(codec) && LevelsWellFormed(codec, l0, l1)
    requires Compact(codec, l0, l1, next).created.Some?
    ensures |l0| > 0 && Inputs(l0, l1).Success?
    ensures var inputs := Ordered(Inputs(l0, l1).value.0, Inputs(l0, l1).value.1);
      && multiset(inputs) == multiset(Inputs(l0, l1).value.0 + Inputs(l0, l1).value.1)
      && (forall i, j :: 0 <= i < j < |inputs| ==> inputs[i].Number() <= inputs[j].Number())
      && Get(Contents(Compact(codec, l0, l1, next).created.value), k) == Surviving(Latest(ContentsOf(inputs), k))
    ensures forall c :: c in Contents(Compact(codec, l0, l1, next).created.value) ==> c.Set?
  {
    CompactedShape(codec, l0, l1, next);
    var inputs := Ordered(Inputs(l0, l1).value.0, Inputs(l0, l1).value.1);
    forall x | x in inputs ensures WellFormed(codec, x) {
      InputsFrom(l0, l1, x);
    }
    MergedTable(codec, inputs, next, Compact(codec, l0, l1, next).created.value);
    MergeWins(ContentsOf(inputs), k);
  }

  /** The table written from well-formed inputs holds their merge. */
  lemma MergedTable(codec: TableCodec, inputs: seq<Table>, next: int64, t: Table)
    requires Invertible(codec) && forall x :: x in inputs ==> WellFormed(codec, x)
    requires InitFromIndex(codec, next, CompactedPartSize, 1, Merge(ReadAll(codec, inputs))) == Success(t)
    ensures WellFormed(codec, t) && Contents(t) == Merge(ContentsOf(inputs))
    ensures forall i :: 0 <= i < |inputs| ==> Sorted(ContentsOf(inputs)[i])
  {
    forall i | 0 <= i < |inputs| ensures Sorted(ContentsOf(inputs)[i]) {
      assert inputs[i] in inputs;
    }
    ReadAllFull(codec, inputs);
    InitFromIndexLayout(codec, next, CompactedPartSize, 1, Merge(ContentsOf(inputs)));
  }

  /** After a compaction that wrote a table, the level-0 tables left are
      those that share no number with a level-0 input, and the level-1
      tables left are those, the new table included, that share no number
      with a level-1 input; both in their former order. */
  lemma CompactedLevels(codec: TableCodec, l0: seq<Table>, l1: seq<Table>, next: int64)
    requires Compact(codec, l0, l1, next).created.Some?
    ensures |l0| > 0 && Inputs(l0, l1).Success?
    ensures var r := Compact(codec, l0, l1, next);
      var (fromL0, fromL1) := Inputs(l0, l1).value;
      && (forall u :: u in r.l0 <==> u in l0 && forall v :: v in fromL0 ==> v.Number() != u.Number())
      && (forall u :: u in r.l1 <==>
            (u in l1 || u == r.created.value) && forall v :: v in fromL1 ==> v.Number() != u.Number())
  {
    CompactedShape(codec, l0, l1, next);
    var r := Compact(codec, l0, l1, next);
    LevelsAfter(l0, l1, Inputs(l0, l1).value.0, Inputs(l0, l1).value.1, r.created.value);
  }

  /** A compaction only removes tables, and adds the one it writes to level 1. */
  lemma CompactedSubsets(codec: TableCodec, l0: seq<Table>, l1: seq<Table>, next: int64)
    requires Compact(codec, l0, l1, next).created.Some?
    ensures forall u :: u in Compact(codec, l0, l1, next).l0 ==> u in l0
    ensures forall u :: u in Compact(codec, l0, l1, next).l1 ==>
      u in l1 || u == Compact(codec, l0, l1, next).created.value
  {
    CompactedShape(codec, l0, l1, next);
    var r := Compact(codec, l0, l1, next);
    LevelsAfter(l0, l1, Inputs(l0, l1).value.0, Inputs(l0, l1).value.1, r.created.value);
  }

  /** The newest level-0 table always leaves level 0, and when the new
      table's number is fresh in level 1 it ends up last there, after the
      level-1 tables left in their former order. */
  lemma CompactedRetires(codec: TableCodec, l0: seq<Table>, l1: seq<Table>, next: int64)
    requires LevelsWellFormed(codec, l0, l1)
    requires Compact(codec, l0, l1, next).created.Some?
    ensures |l0| > 0 && Inputs(l0, l1).Success?
    ensures var r := Compact(codec, l0, l1, next);
      && l0[Newest(l0)] !in r.l0
      && ((forall u :: u in l1 ==> u.Number() != next)
          ==> r.l1 == Without(l1, Inputs(l0, l1).value.1) + [r.created.value])
  {
    CompactedShape(codec, l0, l1, next);
    SeedSelected(codec, l0, l1);
    var r := Compact(codec, l0, l1, next);
    var fromL0 := Inputs(l0, l1).value.0;
    var fromL1 := Inputs(l0, l1).value.1;
    assert fromL1 == FindOverlap(UnionRange(fromL0).value.0, UnionRange(fromL0).value.1, l1);
    assert r.created.value.Number() == next;
    SeedLeaves(l0, fromL0, l0[Newest(l0)]);
    if forall u :: u in l1 ==> u.Number() != next {
      FreshAppended(l1, r.created.value, fromL1);
    }
  }

  /** A removed table leaves. */
  lemma SeedLeaves(ts: seq<Table>, removed: seq<Table>, t: Table)
    requires t in removed
    ensures t !in Without(ts, removed)
  {
    WithoutMembers(ts, removed);
  }

  /** `CompactedLevels` over the overlap sets and the new table as given. */
  lemma LevelsAfter(l0: seq<Table>, l1: seq<Table>, fromL0: seq<Table>, fromL1: seq<Table>, t: Table)
    ensures forall u :: u in Without(l0, fromL0) <==>
      u in l0 && forall v :: v in fromL0 ==> v.Number() != u.Number()
    ensures forall u :: u in Without(l1 + [t], fromL1) <==>
      (u in l1 || u == t) && forall v :: v in fromL1 ==> v.Number() != u.Number()
  {
    WithoutMembers(l0, fromL0);
    WithoutMembers(l1 + [t], fromL1);
    assert forall u :: u in l1 + [t] <==> u in l1 || u == t;
  }

  /** A table whose number no table of the level has stays, last. */
  lemma FreshAppended(ts: seq<Table>, t: Table, removed: seq<Table>)
    requires forall v :: v in removed ==> v in ts
    requires forall u :: u in ts ==> u.Number() != t.Number()
    ensures Without(ts + [t], removed) == Without(ts, removed) + [t]
  {
    WithoutAppend(ts, [t], removed);
    WithoutOne(t, removed);
    forall i | 0 <= i < |removed| ensures removed[i].Number() != t.Number() {
      assert removed[i] in ts;
    }
  }

  /** How a compaction that wrote a table rebuilds the levels. */
  lemma CompactedShape(codec: TableCodec, l0: seq<Table>, l1: seq<Table>, next: int64)
    requires Compact(codec, l0, l1, next).created.Some?
    ensures |l0| > L0MaxFiles && Inputs(l0, l1).Success?
    ensures var r := Compact(codec, l0, l1, next);
      var (fromL0, fromL1) := Inputs(l0, l1).value;
      && r.l0 == Without(l0, fromL0)
      && r.l1 == Without(l1 + [r.created.value], fromL1)
      && InitFromIndex(codec, next, CompactedPartSize, 1, Merge(ReadAll(codec, Ordered(fromL0, fromL1))))
         == Success(r.created.value)
  {
  }

  /** The tables left are those sharing no number with a removed table. */
  lemma WithoutMembers(ts: seq<Table>, removed: seq<Table>)
    ensures forall u :: u in Without(ts, removed) <==>
      u in ts && forall v :: v in removed ==> v.Number() != u.Number()
  {
    forall u: Table ensures ContainTheSstable(removed, u.Number()) <==> exists v :: v in removed && v.Number() == u.Number() {
      if ContainTheSstable(removed, u.Number()) {
        var i :| 0 <= i < |removed| && removed[i].Number() == u.Number();
        assert removed[i] in removed;
      }
    }
  }

  /** One table stays exactly when it shares no number with a removed one. */
  lemma WithoutOne(t: Table, removed: seq<Table>)
    ensures Without([t], removed) == if ContainTheSstable(removed, t.Number()) then [] else [t]
  {
    KeepOne(t, (t: Table) => !ContainTheSstable(removed, t.Number()));
  }

  // ---------------------------------------------------------------------------
  // Level 1 stays disjoint.
  // ---------------------------------------------------------------------------

  /** Two tables whose key ranges do not meet. */
  predicate Apart(a: Table, b: Table)
  {
    Lt(a.LargestKey(), b.SmallestKey()) || Lt(b.LargestKey(), a.SmallestKey())
  }

  /** Pairwise disjoint key ranges, as the binary search over a level
      assumes. */
  predicate Disjoint(ts: seq<Table>)
  {
    forall i, j :: 0 <= i < j < |ts| ==> Apart(ts[i], ts[j])
  }

  lemma DisjointCons(x: Table, s: seq<Table>)
    requires Disjoint(s) && forall y :: y in s ==> Apart(x, y)
    ensures Disjoint([x] + s)
  {
    var all := [x] + s;
    forall i, j | 0 <= i < j < |all| ensures Apart(all[i], all[j]) {
      assert all[j] == s[j - 1];
      if i > 0 {
        assert all[i] == s[i - 1];
      }
    }
  }

  lemma DisjointSnoc(s: seq<Table>, x: Table)
    requires Disjoint(s) && forall y :: y in s ==> Apart(y, x)
    ensures Disjoint(s + [x])
  {
    var all := s + [x];
    forall i, j | 0 <= i < j < |all| ensures Apart(all[i], all[j]) {
      assert all[i] == s[i];
      if j < |s| {
        assert all[j] == s[j];
      }
    }
  }

  /** Dropping tables keeps a level disjoint. */
  lemma {:induction false} KeepDisjoint(ts: seq<Table>, keep: Table -> bool)
    requires Disjoint(ts)
    ensures Disjoint(Keep(ts, keep))
    decreases |ts|
  {
    if |ts| > 0 {
      var tail := ts[1..];
      assert Disjoint(tail) by {
        forall i, j | 0 <= i < j < |tail| ensures Apart(tail[i], tail[j]) {
          assert tail[i] == ts[i + 1] && tail[j] == ts[j + 1];
        }
      }
      KeepDisjoint(tail, keep);
      if keep(ts[0]) {
        forall y | y in Keep(tail, keep) ensures Apart(ts[0], y) {
          var j :| 0 <= j < |tail| && tail[j] == y;
          assert ts[j + 1] == y;
        }
        DisjointCons(ts[0], Keep(tail, keep));
      }
    }
  }

  /** A key of a well-formed table that a level-1 table left in place
      misses lies, relative to that table, on the side of the union range. */
  lemma KeyBeyond(codec: TableCodec, l1: seq<Table>, lo: Key, hi: Key, u: Table, x: Table, k: Key)
    requires Disjoint(l1) && u in l1 && !Overlaps(u, lo, hi) && WellFormed(codec, u)
    requires Le(x.SmallestKey(), k) && Le(k, x.LargestKey()) && Le(x.SmallestKey(), x.LargestKey())
    requires (x in l1 && Overlaps(x, lo, hi)) || (Le(lo, x.SmallestKey()) && Le(x.LargestKey(), hi))
    ensures Lt(u.LargestKey(), lo) ==> Lt(u.LargestKey(), k)
    ensures Lt(hi, u.SmallestKey()) ==> Lt(k, u.SmallestKey())
  {
    WithinRange(codec, u);
    if Le(lo, x.SmallestKey()) && Le(x.LargestKey(), hi) {
      if Lt(u.LargestKey(), lo) {
        LtLeTransitive(u.LargestKey(), lo, x.SmallestKey());
        LtLeTransitive(u.LargestKey(), x.SmallestKey(), k);
      }
      if Lt(hi, u.SmallestKey()) {
        LeLtTransitive(x.LargestKey(), hi, u.SmallestKey());
        LeLtTransitive(k, x.LargestKey(), u.SmallestKey());
      }
    } else {
      var i :| 0 <= i < |l1| && l1[i] == x;
      var j :| 0 <= j < |l1| && l1[j] == u;
      assert x != u;
      assert Apart(x, u);
      if Lt(u.LargestKey(), lo) {
        if Lt(x.LargestKey(), u.SmallestKey()) {
          LtLeTransitive(x.LargestKey(), u.SmallestKey(), u.LargestKey());
          LtTransitive(x.LargestKey(), u.LargestKey(), lo);
          assert false;
        }
        LtLeTransitive(u.LargestKey(), x.SmallestKey(), k);
      }
      if Lt(hi, u.SmallestKey()) {
        if Lt(u.LargestKey(), x.SmallestKey()) {
          LeLtTransitive(u.SmallestKey(), u.LargestKey(), x.SmallestKey());
          LtTransitive(hi, u.SmallestKey(), x.SmallestKey());
          assert false;
        }
        LeLtTransitive(k, x.LargestKey(), u.SmallestKey());
      }
    }
  }

  /** Every key the merge keeps comes from an input holding it within that
      input's range. */
  lemma MergedKeyFrom(codec: TableCodec, inputs: seq<Table>, k: Key)
    requires forall x :: x in inputs ==> WellFormed(codec, x)
    requires Get(Merge(ContentsOf(inputs)), k).Some?
    ensures exists x :: x in inputs && Le(x.SmallestKey(), k) && Le(k, x.LargestKey())
  {
    var contents := ContentsOf(inputs);
    assert forall i :: 0 <= i < |contents| ==> Sorted(contents[i]) by {
      forall i | 0 <= i < |contents| ensures Sorted(contents[i]) {
        assert inputs[i] in inputs;
      }
    }
    MergeWins(contents, k);
    var c := Latest(contents, k);
    var i :| 0 <= i < |contents| && Get(contents[i], k) == c;
    var x := inputs[i];
    GetSound(Contents(x), k);
    var p :| 0 <= p < |Contents(x)| && Contents(x)[p] == c.value;
    WithinRange(codec, x);
  }

  /** Every merge input lies within the union range of the level-0 inputs
      or is a level-1 table overlapping it. */
  lemma InputInRange(l0: seq<Table>, l1: seq<Table>, x: Table)
    requires |l0| > 0 && Inputs(l0, l1).Success? && UnionRange(Inputs(l0, l1).value.0).Some?
    requires x in Ordered(Inputs(l0, l1).value.0, Inputs(l0, l1).value.1)
    ensures var (lo, hi) := UnionRange(Inputs(l0, l1).value.0).value;
      || (x in l1 && Overlaps(x, lo, hi))
      || (Le(lo, x.SmallestKey()) && Le(x.LargestKey(), hi))
  {
    var fromL0 := Inputs(l0, l1).value.0;
    InputsFrom(l0, l1, x);
    if x in fromL0 {
      UnionRangeBounds(fromL0);
      var i :| 0 <= i < |fromL0| && fromL0[i] == x;
    }
  }

  /** A level-1 table the compaction leaves in place misses the union range,
      and every key the merge keeps lies beyond it on the range's side. */
  lemma KeptSide(codec: TableCodec, l0: seq<Table>, l1: seq<Table>, u: Table, k: Key)
    requires Invertible(codec) && LevelsWellFormed(codec, l0, l1) && Disjoint(l1)
    requires |l0| > 0 && Inputs(l0, l1).Success? && UnionRange(Inputs(l0, l1).value.0).Some?
    requires u in l1 && u !in Inputs(l0, l1).value.1
    requires Get(Merge(ContentsOf(Ordered(Inputs(l0, l1).value.0, Inputs(l0, l1).value.1))), k).Some?
    ensures var (lo, hi) := UnionRange(Inputs(l0, l1).value.0).value;
      && !Overlaps(u, lo, hi)
      && (Lt(u.LargestKey(), lo) ==> Lt(u.LargestKey(), k))
      && (Lt(hi, u.SmallestKey()) ==> Lt(k, u.SmallestKey()))
  {
    var inputs := Ordered(Inputs(l0, l1).value.0, Inputs(l0, l1).value.1);
    var lo := UnionRange(Inputs(l0, l1).value.0).value.0;
    var hi := UnionRange(Inputs(l0, l1).value.0).value.1;
    forall x | x in inputs ensures WellFormed(codec, x) {
      InputsFrom(l0, l1, x);
    }
    MergedKeyFrom(codec, inputs, k);
    var x :| x in inputs && Le(x.SmallestKey(), k) && Le(k, x.LargestKey());
    WithinRange(codec, x);
    InputInRange(l0, l1, x);
    KeyBeyond(codec, l1, lo, hi, u, x, k);
  }

  /** The ends of the compacted table are keys the merge keeps. */
  lemma CreatedKeys(codec: TableCodec, l0: seq<Table>, l1: seq<Table>, next: int64)
    requires Invertible(codec) && LevelsWellFormed(codec, l0, l1)
    requires Compact(codec, l0, l1, next).created.Some?
    ensures Inputs(l0, l1).Success?
    ensures var t := Compact(codec, l0, l1, next).created.value;
      var merged := Merge(ContentsOf(Ordered(Inputs(l0, l1).value.0, Inputs(l0, l1).value.1)));
      Get(merged, t.SmallestKey()).Some? && Get(merged, t.LargestKey()).Some?
  {
    CompactedShape(codec, l0, l1, next);
    var (fromL0, fromL1) := Inputs(l0, l1).value;
    var inputs := Ordered(fromL0, fromL1);
    forall x | x in inputs ensures WellFormed(codec, x) {
      InputsFrom(l0, l1, x);
    }
    ReadAllFull(codec, inputs);
    var merged := Merge(ContentsOf(inputs));
    InitFromIndexLayout(codec, next, CompactedPartSize, 1, merged);
    GetAt(merged, 0);
    GetAt(merged, |merged| - 1);
  }

  /** A level-1 table the compaction leaves in place is apart from the
      table it creates. */
  lemma KeptApart(codec: TableCodec, l0: seq<Table>, l1: seq<Table>, next: int64, u: Table)
    requires Invertible(codec) && LevelsWellFormed(codec, l0, l1) && Disjoint(l1)
    requires Compact(codec, l0, l1, next).created.Some?
    requires Inputs(l0, l1).Success? && u in Without(l1, Inputs(l0, l1).value.1)
    ensures Apart(u, Compact(codec, l0, l1, next).created.value)
  {
    var t := Compact(codec, l0, l1, next).created.value;
    CompactedShape(codec, l0, l1, next);
    SeedSelected(codec, l0, l1);
    CreatedKeys(codec, l0, l1, next);
    WithoutMembers(l1, Inputs(l0, l1).value.1);
    assert u !in Inputs(l0, l1).value.1;
    KeptSide(codec, l0, l1, u, t.SmallestKey());
    KeptSide(codec, l0, l1, u, t.LargestKey());
  }

  /** If level 1 was pairwise disjoint, it still is after a compaction: the
      new table's keys lie between the ends of the union range and of the
      level-1 tables it replaced, and every level-1 table left in place
      misses that range. */
  lemma CompactKeepsDisjoint(codec: TableCodec, l0: seq<Table>, l1: seq<Table>, next: int64)
    requires Invertible(codec) && LevelsWellFormed(codec, l0, l1) && Disjoint(l1)
    ensures Disjoint(Compact(codec, l0, l1, next).l1)
  {
    var r := Compact(codec, l0, l1, next);
    if r.created.Some? {
      CompactedShape(codec, l0, l1, next);
      var fromL1 := Inputs(l0, l1).value.1;
      forall u | u in Without(l1, fromL1) ensures Apart(u, r.created.value) {
        KeptApart(codec, l0, l1, next, u);
      }
      SnocApart(l1, fromL1, r.created.value);
    }
  }

  /** Adding a table apart from every table left keeps a level disjoint. */
  lemma SnocApart(l1: seq<Table>, fromL1: seq<Table>, t: Table)
    requires Disjoint(l1) && forall u :: u in Without(l1, fromL1) ==> Apart(u, t)
    ensures Disjoint(Without(l1 + [t], fromL1))
  {
    var kept := Without(l1, fromL1);
    WithoutAppend(l1, [t], fromL1);
    KeepDisjoint(l1, (t: Table) => !ContainTheSstable(fromL1, t.Number()));
    DisjointSnoc(kept, t);
    WithoutOne(t, fromL1);
    assert kept + [] == kept;
  }

  // ---------------------------------------------------------------------------
  // What happens to the keys of the newest level-0 table.
  // ---------------------------------------------------------------------------

  /** The table a compaction writes from well-formed inputs is well formed. */
  lemma CreatedWellFormed(codec: TableCodec, l0: seq<Table>, l1: seq<Table>, next: int64)
    requires Invertible(codec) && LevelsWellFormed(codec, l0, l1)
    requires Compact(codec, l0, l1, next).created.Some?
    ensures WellFormed(codec, Compact(codec, l0, l1, next).created.value)
  {
    CompactedShape(codec, l0, l1, next);
    var inputs := Ordered(Inputs(l0, l1).value.0, Inputs(l0, l1).value.1);
    forall x | x in inputs ensures WellFormed(codec, x) {
      InputsFrom(l0, l1, x);
    }
    MergedTable(codec, inputs, next, Compact(codec, l0, l1, next).created.value);
  }

  /** A well-formed table missing `[lo, hi]` holds no key inside it. */
  lemma MissesRange(codec: TableCodec, u: Table, lo: Key, hi: Key, k: Key)
    requires WellFormed(codec, u) && !Overlaps(u, lo, hi) && Le(lo, k) && Le(k, hi)
    ensures Get(Contents(u), k) == None
  {
    if Lt(u.LargestKey(), lo) {
      LtLeTransitive(u.LargestKey(), lo, k);
    } else {
      LeLtTransitive(k, hi, u.SmallestKey());
    }
    OutsideRangeAbsent(codec, u, k);
  }

  /** A key a well-formed table holds lies in its range. */
  lemma HeldInRange(codec: TableCodec, t: Table, k: Key)
    requires WellFormed(codec, t) && Get(Contents(t), k).Some?
    ensures Le(t.SmallestKey(), k) && Le(k, t.LargestKey())
  {
    GetSound(Contents(t), k);
    var p :| 0 <= p < |Contents(t)| && Contents(t)[p] == Get(Contents(t), k).value;
    WithinRange(codec, t);
  }

  /** After a compaction no level-0 table holds a key the newest level-0
      table held, since every table holding it overlaps that table. */
  lemma SeedKeyLeavesL0(codec: TableCodec, l0: seq<Table>, l1: seq<Table>, next: int64, k: Key)
    requires LevelsWellFormed(codec, l0, l1) && Compact(codec, l0, l1, next).created.Some?
    requires |l0| > 0 && Get(Contents(l0[Newest(l0)]), k).Some?
    ensures forall u :: u in Compact(codec, l0, l1, next).l0 ==> Get(Contents(u), k) == None
  {
    CompactedShape(codec, l0, l1, next);
    SeedSelected(codec, l0, l1);
    var seed := l0[Newest(l0)];
    var fromL0 := Inputs(l0, l1).value.0;
    HeldInRange(codec, seed, k);
    WithoutMembers(l0, fromL0);
    forall u | u in Without(l0, fromL0) ensures Get(Contents(u), k) == None {
      assert u !in fromL0;
      MissesRange(codec, u, seed.SmallestKey(), seed.LargestKey(), k);
    }
  }

  /** After a compaction no level-1 table left in place holds a key the
      newest level-0 table held: that key lies in the union range, which
      such a table misses. */
  lemma SeedKeyLeavesL1(codec: TableCodec, l0: seq<Table>, l1: seq<Table>, next: int64, k: Key)
    requires LevelsWellFormed(codec, l0, l1) && Compact(codec, l0, l1, next).created.Some?
    requires |l0| > 0 && Get(Contents(l0[Newest(l0)]), k).Some?
    ensures forall u :: u in Compact(codec, l0, l1, next).l1 && u in l1 ==> Get(Contents(u), k) == None
  {
    CompactedShape(codec, l0, l1, next);
    SeedSelected(codec, l0, l1);
    var fromL0 := Inputs(l0, l1).value.0;
    var lo := UnionRange(fromL0).value.0;
    var hi := UnionRange(fromL0).value.1;
    SeedKeyInRange(codec, l0[Newest(l0)], fromL0, k);
    KeptMisses(codec, l1, Inputs(l0, l1).value.1, lo, hi, Compact(codec, l0, l1, next).created.value, k);
  }

  /** A key a level-0 input holds lies in the union range. */
  lemma SeedKeyInRange(codec: TableCodec, seed: Table, fromL0: seq<Table>, k: Key)
    requires WellFormed(codec, seed) && seed in fromL0 && Get(Contents(seed), k).Some?
    ensures UnionRange(fromL0).Some?
    ensures Le(UnionRange(fromL0).value.0, k) && Le(k, UnionRange(fromL0).value.1)
  {
    HeldInRange(codec, seed, k);
    UnionRangeBounds(fromL0);
    var i :| 0 <= i < |fromL0| && fromL0[i] == seed;
    LeTransitive(UnionRange(fromL0).value.0, seed.SmallestKey(), k);
    LeTransitive(k, seed.LargestKey(), UnionRange(fromL0).value.1);
  }

  /** The level-1 tables left in place, all missing `[lo, hi]`, hold no key
      inside it. */
  lemma KeptMisses(codec: TableCodec, l1: seq<Table>, fromL1: seq<Table>, lo: Key, hi: Key, t: Table, k: Key)
    requires fromL1 == FindOverlap(lo, hi, l1) && Le(lo, k) && Le(k, hi)
    requires forall u :: u in l1 ==> WellFormed(codec, u)
    ensures forall u :: u in Without(l1 + [t], fromL1) && u in l1 ==> Get(Contents(u), k) == None
  {
    WithoutMembers(l1 + [t], fromL1);
    forall u | u in Without(l1 + [t], fromL1) && u in l1 ensures Get(Contents(u), k) == None {
      assert u !in fromL1;
      MissesRange(codec, u, lo, hi, k);
    }
  }

  /** When every other table of both levels is older than the newest
      level-0 table, the compacted table answers for a key that table held
      with that table's command, unless it is a tombstone. */
  lemma SeedWins(codec: TableCodec, l0: seq<Table>, l1: seq<Table>, next: int64, k: Key)
    requires Invertible(codec) && LevelsWellFormed(codec, l0, l1)
    requires Compact(codec, l0, l1, next).created.Some?
    requires |l0| > 0 && Get(Contents(l0[Newest(l0)]), k).Some?
    requires forall u :: u in l0 + l1 && u != l0[Newest(l0)] ==> u.Number() < l0[Newest(l0)].Number()
    ensures Get(Contents(Compact(codec, l0, l1, next).created.value), k)
            == Surviving(Get(Contents(l0[Newest(l0)]), k))
  {
    CompactedContents(codec, l0, l1, next, k);
    SeedSelected(codec, l0, l1);
    SeedInput(l0, l1);
    LatestFromNewest(Ordered(Inputs(l0, l1).value.0, Inputs(l0, l1).value.1), l0[Newest(l0)], k);
  }

  /** The newest level-0 table is a merge input, the inputs are in
      ascending number order, and when the other tables of both levels are
      older than it, so are the other inputs. */
  lemma SeedInput(l0: seq<Table>, l1: seq<Table>)
    requires |l0| > 0 && Inputs(l0, l1).Success? && l0[Newest(l0)] in Inputs(l0, l1).value.0
    ensures var inputs := Ordered(Inputs(l0, l1).value.0, Inputs(l0, l1).value.1);
      && l0[Newest(l0)] in inputs
      && (forall i, j :: 0 <= i < j < |inputs| ==> inputs[i].Number() <= inputs[j].Number())
      && ((forall u :: u in l0 + l1 && u != l0[Newest(l0)] ==> u.Number() < l0[Newest(l0)].Number())
          ==> forall u :: u in inputs && u != l0[Newest(l0)] ==> u.Number() < l0[Newest(l0)].Number())
  {
    var inputs := Ordered(Inputs(l0, l1).value.0, Inputs(l0, l1).value.1);
    assert l0[Newest(l0)] in multiset(Inputs(l0, l1).value.0 + Inputs(l0, l1).value.1);
    assert l0[Newest(l0)] in multiset(inputs);
    forall u | u in inputs ensures u in l0 + l1 {
      InputsFrom(l0, l1, u);
    }
  }

  /** Among inputs in ascending number order, the latest command for a key
      the strictly newest input holds is that input's. */
  lemma LatestFromNewest(inputs: seq<Table>, seed: Table, k: Key)
    requires forall i, j :: 0 <= i < j < |inputs| ==> inputs[i].Number() <= inputs[j].Number()
    requires seed in inputs && Get(Contents(seed), k).Some?
    requires forall u :: u in inputs && u != seed ==> u.Number() < seed.Number()
    ensures Latest(ContentsOf(inputs), k) == Get(Contents(seed), k)
  {
    var i :| 0 <= i < |inputs| && inputs[i] == seed;
    var cs := ContentsOf(inputs);
    assert Get(cs[i], k).Some?;
    var j := LatestAt(cs, k);
    assert i <= j;
    assert inputs[i].Number() <= inputs[j].Number();
    assert inputs[j] in inputs;
    assert inputs[j] == seed;
    assert cs[j] == Contents(seed);
  }

  /** The position `Latest` answers from. */
  lemma LatestAt(contents: seq<Entries>, k: Key) returns (j: nat)
    requires Latest(contents, k).Some?
    ensures j < |contents| && Get(contents[j], k) == Latest(contents, k)
    ensures forall m :: j < m < |contents| ==> Get(contents[m], k) == None
  {
    j :| 0 <= j < |contents| && Get(contents[j], k) == Latest(contents, k)
         && forall m :: j < m < |contents| ==> Get(contents[m], k) == None;
  }
}
