/** `LsmKvStore`: the write path (`set`, `rm`, `switchIndex`,
    `dumpToL0SsTable`) as a state machine over an immutable store record,
    and the read path (`get` down to `binarySearchSstables`) as pure
    functions over it. */
module KvStore {
  import opened Wrappers
  import opened Keys
  import opened Commands
  import opened SortedMap
  import opened Bytes
  import opened SsTable
  import Wal
  import Compaction
  import Sorting

  /** `KVConstants.SSTABLE_MAX_LEVEL`: `get` reads levels below it. */
  const SstableMaxLevel: nat := 3

  /** The constructor's parameters and the serialisations the store uses. */
  datatype Config = Config(
    storeThreshold: int32,
    partSize: int32,
    tableCodec: TableCodec,
    commandCodec: Wal.CommandCodec)

  /** The store's fields: the two memtables (`null` is `None`), the tables
      of each level (`levelMetaInfos`, a missing level being empty), the
      bytes of the `wal` and `walTmp` files (`walTmp` exists exactly while
      an immutable memtable waits to be written), and `nextFileNumber`. */
  datatype Store = Store(
    memtable: Entries,
    immutable: Option<Entries>,
    levels: map<int, seq<Table>>,
    wal: seq<byte>,
    walTmp: Option<seq<byte>>,
    nextFileNumber: int64)

  /** What a write leaves: the store, and the exception it threw, if any. */
  datatype Outcome = Outcome(store: Store, error: Option<Error>)

  /** `levelMetaInfos.get(i)`, a missing level read as empty. */
  function Level(levels: map<int, seq<Table>>, i: int): seq<Table>
  {
    if i in levels then levels[i] else []
  }

  /** `ConcurrentSkipListMap.size()`, which stops at `Integer.MAX_VALUE`. */
  function Size(m: Entries): (r: int32)
    ensures 0 <= r <= |m| && (r == |m| || r == MaxArrayLength)
  {
    if |m| > MaxArrayLength then MaxArrayLength else |m|
  }

  // ---------------------------------------------------------------------------
  // set, rm, switchIndex, dumpToL0SsTable.
  // ---------------------------------------------------------------------------

  /** The two steps `set` and `rm` share: the command is serialised (a
      payload beyond Java's array limit fails before anything is written),
      its record appended to the log, and only then put into the memtable. */
  function Append(cfg: Config, s: Store, c: Command): (r: Result<Store>)
    requires Sorted(s.memtable)
    ensures r.Failure? <==> |cfg.commandCodec.encode(c)| > MaxArrayLength
    ensures r.Failure? ==> r.error == OutOfMemory
    ensures r.Success? ==>
      && r.value.wal == s.wal + Wal.Record(cfg.commandCodec.encode(c))
      && r.value.memtable == Put(s.memtable, c)
      && Sorted(r.value.memtable)
      && Get(r.value.memtable, c.key) == Some(c)
      && (forall k :: k != c.key ==> Get(r.value.memtable, k) == Get(s.memtable, k))
      && r.value == s.(wal := r.value.wal, memtable := r.value.memtable)
  {
    var payload := cfg.commandCodec.encode(c);
    if |payload| > MaxArrayLength then Failure(OutOfMemory)
    else Success(s.(wal := s.wal + Wal.Record(payload), memtable := Put(s.memtable, c)))
  }

  /** `switchIndex`: the memtable is frozen, the log renamed to `walTmp`
      (replacing any earlier one) and a new, empty log opened. */
  function SwitchIndex(s: Store): (r: Store)
  {
    s.(immutable := Some(s.memtable), memtable := [], walTmp := Some(s.wal), wal := [])
  }

  /** The first half of `dumpToL0SsTable`: the frozen memtable written as a
      level-0 table numbered with the counter, which moves on whether or
      not the write succeeds. On success the table joins level 0 and the
      frozen memtable and `walTmp` are dropped; on failure they stay. */
  function Flush(cfg: Config, s: Store): (r: Outcome)
    requires s.immutable.Some? && Sorted(s.immutable.value)
    ensures r.store.nextFileNumber == NextLong(s.nextFileNumber)
    ensures r.error.Some? ==> r.store == s.(nextFileNumber := r.store.nextFileNumber)
    ensures r.error.None? ==>
      && |Level(r.store.levels, 0)| == |Level(s.levels, 0)| + 1
      && var t := Level(r.store.levels, 0)[|Level(s.levels, 0)|];
      && Level(r.store.levels, 0) == Level(s.levels, 0) + [t]
      && t.Number() == s.nextFileNumber && t.level == 0
      && WellFormed(cfg.tableCodec, t) && Contents(t) == s.immutable.value
      && r.store == s.(levels := r.store.levels, immutable := None, walTmp := None,
                       nextFileNumber := r.store.nextFileNumber)
      && (forall i :: i != 0 ==> Level(r.store.levels, i) == Level(s.levels, i))
  {
    var number := s.nextFileNumber;
    var s1 := s.(nextFileNumber := NextLong(number));
    match InitFromIndex(cfg.tableCodec, number, cfg.partSize, 0, s.immutable.value)
    case Failure(e) => Outcome(s1, Some(e))
    case Success(t) =>
      InitFromIndexLayout(cfg.tableCodec, number, cfg.partSize, 0, s.immutable.value);
      Outcome(s1.(levels := s.levels[0 := Level(s.levels, 0) + [t]], immutable := None, walTmp := None), None)
  }

  /** `dumpToL0SsTable`: the flush, then `compaction` over levels 0 and 1.
      The compaction's own exceptions are logged, not thrown; a compaction
      that writes no table leaves both levels as they were. */
  function DumpToL0(cfg: Config, s: Store): (r: Outcome)
    requires s.immutable.Some? && Sorted(s.immutable.value)
    ensures r.error == Flush(cfg, s).error
    ensures r.error.Some? ==> r.store == Flush(cfg, s).store
    ensures r.error.None? ==> r.store.immutable.None? && r.store.walTmp.None?
    ensures r.store.nextFileNumber != s.nextFileNumber
    ensures r.store.memtable == s.memtable && r.store.wal == s.wal
  {
    var f := Flush(cfg, s);
    if f.error.Some? then f
    else
      var st := f.store;
      var c := Compaction.Compact(cfg.tableCodec, Level(st.levels, 0), Level(st.levels, 1), st.nextFileNumber);
      var levels := if c.created.Some? then st.levels[0 := c.l0][1 := c.l1] else st.levels;
      Outcome(st.(levels := levels, nextFileNumber := c.next), None)
  }

  /** `set` and `rm`: append, then, once the memtable holds more than
      `storeThreshold` commands, switch and dump. A write the threshold
      does not trip touches neither the tables nor the counter. */
  function Write(cfg: Config, s: Store, c: Command): (r: Outcome)
    requires Sorted(s.memtable) && (s.immutable.Some? ==> Sorted(s.immutable.value))
    ensures |cfg.commandCodec.encode(c)| > MaxArrayLength ==> r == Outcome(s, Some(OutOfMemory))
    ensures |cfg.commandCodec.encode(c)| <= MaxArrayLength ==>
      (r.store.nextFileNumber != s.nextFileNumber
       <==> Size(Put(s.memtable, c)) > cfg.storeThreshold)
    ensures r.error.None? ==> r.store.memtable == [] || Size(r.store.memtable) <= cfg.storeThreshold
    ensures r.error.None? && r.store.nextFileNumber != s.nextFileNumber ==> r.store.immutable.None?
    ensures r.error.None? && s.immutable.None? ==> r.store.immutable.None?
    ensures r.store.nextFileNumber == s.nextFileNumber ==>
      r.store.levels == s.levels && r.store.immutable == s.immutable
  {
    match Append(cfg, s, c)
    case Failure(e) => Outcome(s, Some(e))
    case Success(s1) =>
      if Size(s1.memtable) > cfg.storeThreshold then
        var s2 := SwitchIndex(s1);
        assert s2.nextFileNumber == s.nextFileNumber && s2.immutable == Some(s1.memtable);
        DumpToL0(cfg, s2)
      else Outcome(s1, None)
  }

  /** `set(key, value)`. */
  function SetValue(cfg: Config, s: Store, key: Key, value: string): (r: Outcome)
    requires Sorted(s.memtable) && (s.immutable.Some? ==> Sorted(s.immutable.value))
  {
    Write(cfg, s, Set(key, value))
  }

  /** `rm(key)`: a tombstone is written like a value. */
  function Remove(cfg: Config, s: Store, key: Key): (r: Outcome)
    requires Sorted(s.memtable) && (s.immutable.Some? ==> Sorted(s.immutable.value))
  {
    Write(cfg, s, Commands.Remove(key))
  }

  // ---------------------------------------------------------------------------
  // get.
  // ---------------------------------------------------------------------------

  /** The level-0 comparator: a larger number goes first. */
  function NewerFirst(): (Table, Table) -> bool
  {
    (a: Table, b: Table) => a.Number() > b.Number()
  }

  /** The comparator of the other levels: a smaller smallest key goes first. */
  function BySmallestKey(): (Table, Table) -> bool
  {
    (a: Table, b: Table) => Lt(a.SmallestKey(), b.SmallestKey())
  }

  lemma NewerFirstOrder()
    ensures Sorting.StrictWeakOrder(NewerFirst())
  {
  }

  lemma BySmallestKeyOrder()
    ensures Sorting.StrictWeakOrder(BySmallestKey())
  {
    forall a: Table, b: Table | Lt(a.SmallestKey(), b.SmallestKey())
      ensures !Lt(b.SmallestKey(), a.SmallestKey())
    {
      LtAsymmetric(a.SmallestKey(), b.SmallestKey());
    }
    forall a: Table, b: Table, c: Table
      | !Lt(a.SmallestKey(), b.SmallestKey()) && !Lt(b.SmallestKey(), c.SmallestKey())
      ensures !Lt(a.SmallestKey(), c.SmallestKey())
    {
      LeTransitive(c.SmallestKey(), b.SmallestKey(), a.SmallestKey());
    }
  }

  /** The loop of `findFromL0Sstables`: the first table whose `query`
      answers decides; a failing `query` fails the lookup. */
  function Probe(codec: TableCodec, ts: seq<Table>, k: Key): (r: Result<Option<Command>>)
    ensures r.Success? && r.value.Some? ==> r.value.value.key == k
  {
    if |ts| == 0 then Success(None)
    else
      var c :- Query(codec, ts[0], k);
      if c.Some? then Success(c) else Probe(codec, ts[1..], k)
  }

  /** `findFromL0Sstables`: the tables newest first, then the probe. */
  function FindFromL0(codec: TableCodec, ts: seq<Table>, k: Key): (r: Result<Option<Command>>)
  {
    NewerFirstOrder();
    if |ts| == 0 then Success(None) else Probe(codec, Sorting.Sort(ts, NewerFirst()), k)
  }

  /** A table whose footer range contains the key. */
  predicate Covers(t: Table, k: Key)
  {
    Le(t.SmallestKey(), k) && Le(k, t.LargestKey())
  }

  /** The loop of `binarySearchSstables` between `left` and `right`
      inclusive: a table covering the key answers with `probe`, its `query`
      for the key; a key below the middle table's smallest key goes left,
      anything else right. The indices stay far below `int` range, so
      `left + (right - left) / 2` is computed exactly. */
  function Search(ts: seq<Table>, k: Key, probe: Table -> Result<Option<Command>>, left: int, right: int)
    : Result<Option<Command>>
    requires 0 <= left <= right + 1 <= |ts|
    decreases right - left + 1
  {
    if left > right then Success(None)
    else
      var mid := left + (right - left) / 2;
      if Covers(ts[mid], k) then probe(ts[mid])
      else if Lt(k, ts[mid].SmallestKey()) then Search(ts, k, probe, left, mid - 1)
      else Search(ts, k, probe, mid + 1, right)
  }

  /** `findFromOtherLevelSstables`: the tables by smallest key, then the
      binary search over all of them. */
  function FindFromLevel(codec: TableCodec, ts: seq<Table>, k: Key): (r: Result<Option<Command>>)
  {
    BySmallestKeyOrder();
    if |ts| == 0 then Success(None)
    else
      var sorted := Sorting.Sort(ts, BySmallestKey());
      Search(sorted, k, (t: Table) => Query(codec, t, k), 0, |sorted| - 1)
  }

  /** The loop of `findFromSstables` over levels `level` and up. */
  function FindFromLevels(codec: TableCodec, levels: map<int, seq<Table>>, level: nat, k: Key)
    : (r: Result<Option<Command>>)
    decreases SstableMaxLevel - level
  {
    if level >= SstableMaxLevel then Success(None)
    else
      var c :- FindFromLevel(codec, Level(levels, level), k);
      if c.Some? then Success(c) else FindFromLevels(codec, levels, level + 1, k)
  }

  /** `findFromSstables`: level 0, then the other levels in turn. */
  function FindFromSstables(codec: TableCodec, levels: map<int, seq<Table>>, k: Key): (r: Result<Option<Command>>)
  {
    var c :- FindFromL0(codec, Level(levels, 0), k);
    if c.Some? then Success(c) else FindFromLevels(codec, levels, 1, k)
  }

  /** The command `get` settles on: the memtable's, else the frozen
      memtable's, else the tables'. */
  function Lookup(cfg: Config, s: Store, k: Key): (r: Result<Option<Command>>)
  {
    match Get(s.memtable, k)
    case Some(c) => Success(Some(c))
    case None =>
      var frozen := if s.immutable.Some? then Get(s.immutable.value, k) else None;
      if frozen.Some? then Success(frozen) else FindFromSstables(cfg.tableCodec, s.levels, k)
  }

  /** What `get` makes of a command: a value is returned, a tombstone or
      nothing reads as `null`. */
  function Answer(c: Option<Command>): (r: Option<string>)
    ensures r.Some? <==> c.Some? && c.value.Set?
  {
    if c.Some? && c.value.Set? then Some(c.value.value) else None
  }

  /** `get(key)`; a table that cannot be read makes it throw. */
  function GetValue(cfg: Config, s: Store, k: Key): (r: Result<Option<string>>)
  {
    var c :- Lookup(cfg, s, k);
    Success(Answer(c))
  }

  // ---------------------------------------------------------------------------
  // What get finds.
  // ---------------------------------------------------------------------------

  /** Every table's smallest key is at most its largest. */
  ghost predicate Ranged(ts: seq<Table>)
  {
    forall t :: t in ts ==> Le(t.SmallestKey(), t.LargestKey())
  }

  /** Different tables of a level hold disjoint key ranges. */
  ghost predicate ApartPairs(ts: seq<Table>)
  {
    forall a, b :: a in ts && b in ts && a != b ==> Compaction.Apart(a, b)
  }

  /** Two tables whose ranges both contain a key are not apart. */
  lemma CoversNotApart(a: Table, b: Table, k: Key)
    requires Covers(a, k) && Covers(b, k)
    ensures !Compaction.Apart(a, b)
  {
    LeTransitive(b.SmallestKey(), k, a.LargestKey());
    LeTransitive(a.SmallestKey(), k, b.LargestKey());
  }

  /** A key below a table's smallest key is covered by no table from it on. */
  lemma BelowFrom(ts: seq<Table>, k: Key, mid: int, right: int)
    requires 0 <= mid <= right < |ts| && Sorting.SortedBy(ts, BySmallestKey())
    requires Lt(k, ts[mid].SmallestKey())
    ensures forall i :: mid <= i <= right ==> !Covers(ts[i], k)
  {
    forall i | mid <= i <= right ensures !Covers(ts[i], k) {
      if i > mid {
        assert !BySmallestKey()(ts[i], ts[mid]);
      } else {
        LtIrreflexive(ts[mid].SmallestKey());
      }
      LtLeTransitive(k, ts[mid].SmallestKey(), ts[i].SmallestKey());
    }
  }

  /** A key above a table's largest key is covered by no table before it,
      when ranges are disjoint. */
  lemma AboveUpTo(ts: seq<Table>, k: Key, left: int, mid: int)
    requires 0 <= left <= mid < |ts| && Sorting.SortedBy(ts, BySmallestKey())
    requires Ranged(ts) && ApartPairs(ts)
    requires Le(ts[mid].SmallestKey(), k) && Lt(ts[mid].LargestKey(), k)
    ensures forall i :: left <= i < mid ==> !Covers(ts[i], k)
  {
    var m := ts[mid];
    forall i | left <= i < mid ensures !Covers(ts[i], k) {
      if ts[i] != m {
        assert ts[i] in ts && m in ts && !BySmallestKey()(m, ts[i]);
        LeTransitive(ts[i].SmallestKey(), m.SmallestKey(), m.LargestKey());
        LtLeTransitive(ts[i].LargestKey(), m.SmallestKey(), k);
      }
    }
  }

  /** What each probe of the binary search relies on, for one key: a key
      below a table's smallest key is covered by no table from it on, a key
      past a table it is not in is covered by no table before it, and at
      most one table covers the key. */
  ghost predicate Steers(ts: seq<Table>, k: Key)
  {
    && (forall m, i {:trigger Lt(k, ts[m].SmallestKey()), Covers(ts[i], k)} :: 0 <= m <= i < |ts| && Lt(k, ts[m].SmallestKey()) ==> !Covers(ts[i], k))
    && (forall i, m {:trigger Lt(k, ts[m].SmallestKey()), Covers(ts[i], k)} :: 0 <= i < m < |ts| && !Covers(ts[m], k) && !Lt(k, ts[m].SmallestKey()) ==> !Covers(ts[i], k))
    && (forall i, j {:trigger Covers(ts[i], k), Covers(ts[j], k)} :: 0 <= i < |ts| && 0 <= j < |ts| && Covers(ts[i], k) && Covers(ts[j], k) ==> ts[i] == ts[j])
  }

  /** A level sorted by smallest key, with ordered and disjoint ranges,
      steers the search for every key. */
  lemma SortedSteers(ts: seq<Table>, k: Key)
    requires Sorting.SortedBy(ts, BySmallestKey()) && Ranged(ts) && ApartPairs(ts)
    ensures Steers(ts, k)
  {
    forall m, i | 0 <= m <= i < |ts| && Lt(k, ts[m].SmallestKey()) ensures !Covers(ts[i], k) {
      BelowFrom(ts, k, m, i);
    }
    forall i, m | 0 <= i < m < |ts| && !Covers(ts[m], k) && !Lt(k, ts[m].SmallestKey()) ensures !Covers(ts[i], k) {
      AboveUpTo(ts, k, i, m);
    }
    forall i, j | 0 <= i < |ts| && 0 <= j < |ts| && Covers(ts[i], k) && Covers(ts[j], k) ensures ts[i] == ts[j] {
      CoversNotApart(ts[i], ts[j], k);
    }
  }

  /** What the binary search between `left` and `right` is to answer: the
      `query` of a table covering the key, nothing if none covers it. */
  ghost predicate SearchAnswers(ts: seq<Table>, k: Key, probe: Table -> Result<Option<Command>>, left: int, right: int)
    requires 0 <= left <= right + 1 <= |ts|
  {
    && (forall i :: left <= i <= right && Covers(ts[i], k) ==>
          Search(ts, k, probe, left, right) == probe(ts[i]))
    && ((forall i :: left <= i <= right ==> !Covers(ts[i], k)) ==>
          Search(ts, k, probe, left, right) == Success(None))
  }

  /** A search that meets a covering table answers with its `query`. */
  lemma SearchHit(ts: seq<Table>, k: Key, probe: Table -> Result<Option<Command>>, left: int, right: int, mid: int)
    requires 0 <= left <= mid <= right < |ts| && mid == left + (right - left) / 2
    requires Steers(ts, k) && Covers(ts[mid], k)
    ensures SearchAnswers(ts, k, probe, left, right)
  {
  }

  /** The search step that goes left keeps the answer. */
  lemma SearchLeft(ts: seq<Table>, k: Key, probe: Table -> Result<Option<Command>>, left: int, right: int, mid: int)
    requires 0 <= left <= mid <= right < |ts| && mid == left + (right - left) / 2
    requires !Covers(ts[mid], k) && Lt(k, ts[mid].SmallestKey())
    requires forall i :: mid <= i <= right ==> !Covers(ts[i], k)
    requires SearchAnswers(ts, k, probe, left, mid - 1)
    ensures SearchAnswers(ts, k, probe, left, right)
  {
    assert Search(ts, k, probe, left, right) == Search(ts, k, probe, left, mid - 1);
    forall i | left <= i <= right && Covers(ts[i], k)
      ensures Search(ts, k, probe, left, right) == probe(ts[i])
    {
      assert i < mid;
    }
  }

  /** The search step that goes right keeps the answer. */
  lemma SearchRight(ts: seq<Table>, k: Key, probe: Table -> Result<Option<Command>>, left: int, right: int, mid: int)
    requires 0 <= left <= mid <= right < |ts| && mid == left + (right - left) / 2
    requires !Covers(ts[mid], k) && !Lt(k, ts[mid].SmallestKey())
    requires forall i :: left <= i < mid ==> !Covers(ts[i], k)
    requires SearchAnswers(ts, k, probe, mid + 1, right)
    ensures SearchAnswers(ts, k, probe, left, right)
  {
    assert Search(ts, k, probe, left, right) == Search(ts, k, probe, mid + 1, right);
    forall i | left <= i <= right && Covers(ts[i], k)
      ensures Search(ts, k, probe, left, right) == probe(ts[i])
    {
      assert i > mid;
    }
  }

  /** The binary search, over tables that steer it for the key, answers
      with the `query` of the one table between `left` and `right` covering
      the key, and finds nothing when none covers it. */
  lemma {:induction false} SearchFinds(ts: seq<Table>, k: Key, probe: Table -> Result<Option<Command>>, left: int, right: int)
    requires 0 <= left <= right + 1 <= |ts|
    requires Steers(ts, k)
    ensures SearchAnswers(ts, k, probe, left, right)
    decreases right - left + 1, 1
  {
    if left <= right {
      SearchStep(ts, k, probe, left, right);
    }
  }

  /** One probe of the search: the middle table answers when it covers the
      key, and otherwise the search goes on in the half that can. */
  lemma {:induction false} SearchStep(ts: seq<Table>, k: Key, probe: Table -> Result<Option<Command>>, left: int, right: int)
    requires 0 <= left <= right < |ts|
    requires Steers(ts, k)
    ensures SearchAnswers(ts, k, probe, left, right)
    decreases right - left + 1, 0
  {
    var mid := left + (right - left) / 2;
    if Covers(ts[mid], k) {
      SearchHit(ts, k, probe, left, right, mid);
    } else if Lt(k, ts[mid].SmallestKey()) {
      SearchFinds(ts, k, probe, left, mid - 1);
      SearchLeft(ts, k, probe, left, right, mid);
    } else {
      SearchFinds(ts, k, probe, mid + 1, right);
      SearchRight(ts, k, probe, left, right, mid);
    }
  }

  /** A well-formed table's range is ordered, and a key outside it is absent. */
  lemma HeldOnlyInRange(codec: TableCodec, t: Table, k: Key)
    requires WellFormed(codec, t)
    ensures Le(t.SmallestKey(), t.LargestKey())
    ensures !Covers(t, k) ==> Get(Contents(t), k) == None
  {
    WithinRange(codec, t);
    if !Covers(t, k) {
      OutsideRangeAbsent(codec, t, k);
    }
  }

  /** `findFromOtherLevelSstables` on a level of well-formed tables with
      disjoint ranges returns the command of the table holding the key,
      and nothing when no table holds it. */
  lemma LevelFinds(codec: TableCodec, ts: seq<Table>, k: Key)
    requires Invertible(codec) && (forall t :: t in ts ==> WellFormed(codec, t)) && ApartPairs(ts)
    ensures forall t :: t in ts && Get(Contents(t), k).Some? ==>
      FindFromLevel(codec, ts, k) == Success(Get(Contents(t), k))
    ensures (forall t :: t in ts ==> Get(Contents(t), k) == None) ==>
      FindFromLevel(codec, ts, k) == Success(None)
  {
    if |ts| > 0 {
      BySmallestKeyOrder();
      var sorted := Sorting.Sort(ts, BySmallestKey());
      Sorting.SortSameElements(ts, BySmallestKey());
      var probe := (t: Table) => Query(codec, t, k);
      SortedSearchFinds(codec, sorted, k, probe);
      assert FindFromLevel(codec, ts, k) == Search(sorted, k, probe, 0, |sorted| - 1);
    }
  }

  /** The search over well-formed tables sorted by smallest key, with
      disjoint ranges, answers with the contents of the table holding the
      key, and with nothing when none holds it. */
  lemma SortedSearchFinds(codec: TableCodec, ts: seq<Table>, k: Key, probe: Table -> Result<Option<Command>>)
    requires Invertible(codec) && (forall t :: t in ts ==> WellFormed(codec, t))
    requires Sorting.SortedBy(ts, BySmallestKey()) && ApartPairs(ts) && |ts| > 0
    requires forall t :: t in ts ==> probe(t) == Query(codec, t, k)
    ensures forall t :: t in ts && Get(Contents(t), k).Some? ==>
      Search(ts, k, probe, 0, |ts| - 1) == Success(Get(Contents(t), k))
    ensures (forall t :: t in ts ==> Get(Contents(t), k) == None) ==>
      Search(ts, k, probe, 0, |ts| - 1) == Success(None)
  {
    forall t | t in ts ensures Le(t.SmallestKey(), t.LargestKey()) && (!Covers(t, k) ==> Get(Contents(t), k) == None) {
      HeldOnlyInRange(codec, t, k);
    }
    SortedSteers(ts, k);
    SearchFinds(ts, k, probe, 0, |ts| - 1);
    forall t | t in ts && Covers(t, k) ensures Search(ts, k, probe, 0, |ts| - 1) == Success(Get(Contents(t), k)) {
      QueryFinds(codec, t, k);
      var i :| 0 <= i < |ts| && ts[i] == t;
    }
  }

  /** The level-0 probe answers with the first table holding the key. */
  lemma ProbeFinds(codec: TableCodec, ts: seq<Table>, k: Key, i: int)
    requires Invertible(codec) && forall t :: t in ts ==> WellFormed(codec, t)
    requires 0 <= i < |ts| && Get(Contents(ts[i]), k).Some?
    requires forall j :: 0 <= j < i ==> Get(Contents(ts[j]), k) == None
    ensures Probe(codec, ts, k) == Success(Get(Contents(ts[i]), k))
  {
    forall j | 0 <= j <= i
      ensures Query(codec, ts[j], k) == Success(Get(Contents(ts[j]), k))
    {
      QueryFinds(codec, ts[j], k);
    }
    ProbeFirst(codec, ts, k, i);
  }

  /** The probe answers with the first `query` that finds the key. */
  lemma {:induction false} ProbeFirst(codec: TableCodec, ts: seq<Table>, k: Key, i: int)
    requires 0 <= i < |ts| && Query(codec, ts[i], k).Success? && Query(codec, ts[i], k).value.Some?
    requires forall j :: 0 <= j < i ==> Query(codec, ts[j], k) == Success(None)
    ensures Probe(codec, ts, k) == Query(codec, ts[i], k)
    decreases i
  {
    ProbeStep(codec, ts, k);
    if i > 0 {
      var rest := ts[1..];
      assert forall j :: 0 <= j < i - 1 ==> rest[j] == ts[j + 1];
      ProbeFirst(codec, rest, k, i - 1);
    }
  }

  /** One table of the level-0 probe: a hit answers, a miss moves on. */
  lemma ProbeStep(codec: TableCodec, ts: seq<Table>, k: Key)
    requires |ts| > 0
    ensures Query(codec, ts[0], k) == Success(None) ==> Probe(codec, ts, k) == Probe(codec, ts[1..], k)
    ensures Query(codec, ts[0], k).Success? && Query(codec, ts[0], k).value.Some? ==>
      Probe(codec, ts, k) == Query(codec, ts[0], k)
  {
  }

  /** The level-0 probe finds nothing when no table holds the key. */
  lemma {:induction false} ProbeMisses(codec: TableCodec, ts: seq<Table>, k: Key)
    requires Invertible(codec) && forall t :: t in ts ==> WellFormed(codec, t)
    requires forall t :: t in ts ==> Get(Contents(t), k) == None
    ensures Probe(codec, ts, k) == Success(None)
    decreases |ts|
  {
    if |ts| > 0 {
      QueryFinds(codec, ts[0], k);
      assert forall t :: t in ts[1..] ==> t in ts;
      ProbeMisses(codec, ts[1..], k);
    }
  }

  /** Distinct tables carry distinct file numbers. */
  ghost predicate Numbered(ts: seq<Table>)
  {
    forall a, b :: a in ts && b in ts && a.Number() == b.Number() ==> a == b
  }

  /** `findFromL0Sstables` returns the command of the newest level-0 table
      holding the key, and nothing when none holds it. */
  lemma L0Finds(codec: TableCodec, ts: seq<Table>, k: Key)
    requires Invertible(codec) && (forall t :: t in ts ==> WellFormed(codec, t)) && Numbered(ts)
    ensures forall t :: t in ts && Get(Contents(t), k).Some?
                        && (forall u :: u in ts && Get(Contents(u), k).Some? ==> u.Number() <= t.Number())
                        ==> FindFromL0(codec, ts, k) == Success(Get(Contents(t), k))
    ensures (forall t :: t in ts ==> Get(Contents(t), k) == None) ==>
      FindFromL0(codec, ts, k) == Success(None)
  {
    if |ts| > 0 {
      NewerFirstOrder();
      var sorted := Sorting.Sort(ts, NewerFirst());
      Sorting.SortSameElements(ts, NewerFirst());
      assert FindFromL0(codec, ts, k) == Probe(codec, sorted, k);
      ProbeNewest(codec, ts, sorted, k);
    }
  }

  /** The probe over a newest-first ordering of the tables answers with
      the newest holder, and with nothing when no table holds the key. */
  lemma ProbeNewest(codec: TableCodec, ts: seq<Table>, sorted: seq<Table>, k: Key)
    requires Invertible(codec) && (forall t :: t in ts ==> WellFormed(codec, t)) && Numbered(ts)
    requires Sorting.SortedBy(sorted, NewerFirst()) && forall t :: t in sorted <==> t in ts
    ensures forall t :: t in ts && Get(Contents(t), k).Some?
                        && (forall u :: u in ts && Get(Contents(u), k).Some? ==> u.Number() <= t.Number())
                        ==> Probe(codec, sorted, k) == Success(Get(Contents(t), k))
    ensures (forall t :: t in ts ==> Get(Contents(t), k) == None) ==> Probe(codec, sorted, k) == Success(None)
  {
    if forall t :: t in ts ==> Get(Contents(t), k) == None {
      ProbeMisses(codec, sorted, k);
    } else {
      var p :| 0 <= p < |sorted| && Get(Contents(sorted[p]), k).Some?;
      var i := FirstHolderExists(sorted, k, p);
      ProbeFinds(codec, sorted, k, i);
      NewestIsFirst(ts, sorted, k, i);
    }
  }

  /** In tables ordered newest first, the first one holding the key is
      every newest holder among the same tables. */
  lemma NewestIsFirst(ts: seq<Table>, sorted: seq<Table>, k: Key, i: int)
    requires Sorting.SortedBy(sorted, NewerFirst()) && Numbered(ts)
    requires forall t :: t in sorted <==> t in ts
    requires 0 <= i < |sorted| && Get(Contents(sorted[i]), k).Some?
    requires forall j :: 0 <= j < i ==> Get(Contents(sorted[j]), k) == None
    ensures forall t :: t in ts && Get(Contents(t), k).Some?
                        && (forall u :: u in ts && Get(Contents(u), k).Some? ==> u.Number() <= t.Number())
                        ==> sorted[i] == t
  {
    forall t | t in ts && Get(Contents(t), k).Some?
               && (forall u :: u in ts && Get(Contents(u), k).Some? ==> u.Number() <= t.Number())
      ensures sorted[i] == t
    {
      var q :| 0 <= q < |sorted| && sorted[q] == t;
      assert q >= i;
      assert sorted[i] in ts;
      if q > i {
        assert !NewerFirst()(sorted[q], sorted[i]);
      }
    }
  }

  /** The first index, up to `p`, of a table holding the key. */
  lemma {:induction false} FirstHolderExists(ts: seq<Table>, k: Key, p: int) returns (i: int)
    requires 0 <= p < |ts| && Get(Contents(ts[p]), k).Some?
    ensures 0 <= i <= p && Get(Contents(ts[i]), k).Some?
    ensures forall j :: 0 <= j < i ==> Get(Contents(ts[j]), k) == None
  {
    i := 0;
    while Get(Contents(ts[i]), k) == None
      invariant 0 <= i <= p
      invariant forall j :: 0 <= j < i ==> Get(Contents(ts[j]), k) == None
      decreases p - i
    {
      i := i + 1;
    }
  }

  /** A level whose tables are pairwise apart by position is apart by value. */
  lemma DisjointApart(ts: seq<Table>)
    requires Compaction.Disjoint(ts)
    ensures ApartPairs(ts)
  {
    forall a, b | a in ts && b in ts && a != b ensures Compaction.Apart(a, b) {
      var i :| 0 <= i < |ts| && ts[i] == a;
      var j :| 0 <= j < |ts| && ts[j] == b;
      if i > j {
        assert Compaction.Apart(ts[j], ts[i]);
      }
    }
  }

  // ---------------------------------------------------------------------------
  // The store's invariant, and what a write leaves for get.
  // ---------------------------------------------------------------------------

  /** What holds of the store between calls: both serialisations can be
      read back, the logs match the memtables, and the tables are in order. */
  ghost predicate Valid(cfg: Config, s: Store)
  {
    && Invertible(cfg.tableCodec) && Wal.Invertible(cfg.commandCodec)
    && LogsValid(cfg.commandCodec, s)
    && TablesValid(cfg.tableCodec, s.levels, s.nextFileNumber)
  }

  /** The log replays to the memtable and `walTmp` to the frozen memtable,
      which exist together. */
  ghost predicate LogsValid(codec: Wal.CommandCodec, s: Store)
  {
    && Sorted(s.memtable)
    && Wal.Framed(s.wal, 0) && Wal.Replay(codec, s.wal, []) == Success(s.memtable)
    && s.immutable.Some? == s.walTmp.Some?
    && (s.immutable.Some? ==>
          Sorted(s.immutable.value) && Wal.Replay(codec, s.walTmp.value, []) == Success(s.immutable.value))
  }

  /** Every table is well formed and numbered below the counter, level-0
      numbers are distinct, and the ranges in each searched level below
      level 0 are disjoint. */
  ghost predicate TablesValid(codec: TableCodec, levels: map<int, seq<Table>>, next: int64)
  {
    && (forall i, t :: t in Level(levels, i) ==> WellFormed(codec, t) && t.Number() < next)
    && Numbered(Level(levels, 0))
    && (forall i :: 1 <= i < SstableMaxLevel ==> Compaction.Disjoint(Level(levels, i)))
  }

  /** Among level-0 tables all older than `t`, the newest after adding `t` is `t`. */
  lemma NewestIsLast(l0: seq<Table>, t: Table)
    requires forall u :: u in l0 ==> u.Number() < t.Number()
    ensures var ts := l0 + [t]; ts[Compaction.Newest(ts)] == t
  {
    var ts := l0 + [t];
    var i := Compaction.Newest(ts);
    assert ts[|l0|] == t;
    assert ts[i] in ts;
  }

  /** After a flush that compaction leaves alone, the tables answer with
      the new level-0 table's command for any key it holds. */
  lemma FlushedFinds(codec: TableCodec, levels: map<int, seq<Table>>, t: Table, k: Key)
    requires Invertible(codec) && WellFormed(codec, t) && Get(Contents(t), k).Some?
    requires forall u :: u in Level(levels, 0) ==> WellFormed(codec, u) && u.Number() < t.Number()
    requires Numbered(Level(levels, 0))
    ensures FindFromSstables(codec, levels[0 := Level(levels, 0) + [t]], k) == Success(Get(Contents(t), k))
  {
    var l0 := Level(levels, 0) + [t];
    assert Level(levels[0 := l0], 0) == l0;
    assert t in l0;
    L0Finds(codec, l0, k);
  }

  /** After a compaction seeded by the new level-0 table, level 0 no
      longer holds the key. */
  lemma CompactedL0Misses(codec: TableCodec, l0: seq<Table>, l1: seq<Table>, next: int64, t: Table, k: Key)
    requires Invertible(codec) && Compaction.LevelsWellFormed(codec, l0 + [t], l1)
    requires forall u :: u in l0 ==> u.Number() < t.Number()
    requires Numbered(l0 + [t]) && Get(Contents(t), k).Some?
    requires Compaction.Compact(codec, l0 + [t], l1, next).created.Some?
    ensures FindFromL0(codec, Compaction.Compact(codec, l0 + [t], l1, next).l0, k) == Success(None)
  {
    var ts := l0 + [t];
    NewestIsLast(l0, t);
    Compaction.CompactedSubsets(codec, ts, l1, next);
    Compaction.SeedKeyLeavesL0(codec, ts, l1, next, k);
    var r0 := Compaction.Compact(codec, ts, l1, next).l0;
    assert forall u :: u in r0 ==> u in ts;
    L0Finds(codec, r0, k);
  }

  /** After a compaction seeded by the new level-0 table, level 1 answers
      with what the merged table keeps of its command. */
  lemma CompactedL1Finds(codec: TableCodec, l0: seq<Table>, l1: seq<Table>, next: int64, t: Table, k: Key)
    requires Invertible(codec) && Compaction.LevelsWellFormed(codec, l0 + [t], l1)
    requires forall u :: u in l0 + l1 ==> u.Number() < t.Number()
    requires Compaction.Disjoint(l1) && Get(Contents(t), k).Some?
    requires forall u :: u in l1 ==> u.Number() != next
    requires Compaction.Compact(codec, l0 + [t], l1, next).created.Some?
    ensures FindFromLevel(codec, Compaction.Compact(codec, l0 + [t], l1, next).l1, k)
            == Success(Compaction.Surviving(Get(Contents(t), k)))
  {
    var ts := l0 + [t];
    NewestIsLast(l0, t);
    assert forall u :: u in ts + l1 && u != t ==> u in l0 + l1;
    Compaction.SeedWins(codec, ts, l1, next, k);
    Compaction.SeedKeyLeavesL1(codec, ts, l1, next, k);
    Compaction.CompactedSubsets(codec, ts, l1, next);
    Compaction.CreatedWellFormed(codec, ts, l1, next);
    Compaction.CompactKeepsDisjoint(codec, ts, l1, next);
    Compaction.CompactedRetires(codec, ts, l1, next);
    var r := Compaction.Compact(codec, ts, l1, next);
    assert r.created.value in r.l1;
    LevelHolder(codec, r.l1, r.created.value, k);
  }

  /** A level of disjoint well-formed tables in which only `c` may hold
      the key answers with `c`'s command. */
  lemma LevelHolder(codec: TableCodec, ts: seq<Table>, c: Table, k: Key)
    requires Invertible(codec) && WellFormed(codec, c) && Compaction.Disjoint(ts) && c in ts
    requires forall u :: u in ts && u != c ==> WellFormed(codec, u) && Get(Contents(u), k) == None
    ensures FindFromLevel(codec, ts, k) == Success(Get(Contents(c), k))
  {
    DisjointApart(ts);
    LevelFinds(codec, ts, k);
  }

  /** With nothing for the key in level 0, the tables give level 1's answer
      (a command or an error), and level 2's when level 1 has nothing. */
  lemma SstablesAnswer(codec: TableCodec, levels: map<int, seq<Table>>, k: Key)
    requires FindFromL0(codec, Level(levels, 0), k) == Success(None)
    ensures var one := FindFromLevel(codec, Level(levels, 1), k);
      one.Failure? || one.value.Some? ==> FindFromSstables(codec, levels, k) == one
    ensures FindFromLevel(codec, Level(levels, 1), k) == Success(None) ==>
      FindFromSstables(codec, levels, k) == FindFromLevel(codec, Level(levels, 2), k)
  {
  }

  /** The store's tables, level by level, as the invariant describes them. */
  lemma ValidLevels(cfg: Config, s: Store)
    requires Valid(cfg, s)
    ensures forall u :: u in Level(s.levels, 0) ==> WellFormed(cfg.tableCodec, u) && u.Number() < s.nextFileNumber
    ensures forall u :: u in Level(s.levels, 1) ==> WellFormed(cfg.tableCodec, u) && u.Number() < s.nextFileNumber
    ensures forall u :: u in Level(s.levels, 2) ==> WellFormed(cfg.tableCodec, u)
    ensures Compaction.Disjoint(Level(s.levels, 1)) && Compaction.Disjoint(Level(s.levels, 2))
    ensures Numbered(Level(s.levels, 0))
  {
    assert 1 < SstableMaxLevel && 2 < SstableMaxLevel;
  }

  /** Adding a table numbered above the others keeps numbers distinct. */
  lemma NumberedSnoc(ts: seq<Table>, t: Table)
    requires Numbered(ts) && forall u :: u in ts ==> u.Number() < t.Number()
    ensures Numbered(ts + [t])
  {
    assert forall u :: u in ts + [t] ==> u in ts || u == t;
  }

  /** The level facts a compaction seeded by a new, newest table `t` needs. */
  lemma SnocFacts(codec: TableCodec, l0: seq<Table>, l1: seq<Table>, t: Table)
    requires WellFormed(codec, t) && Numbered(l0)
    requires forall u :: u in l0 ==> WellFormed(codec, u) && u.Number() < t.Number()
    requires forall u :: u in l1 ==> WellFormed(codec, u) && u.Number() < t.Number()
    ensures Compaction.LevelsWellFormed(codec, l0 + [t], l1) && Numbered(l0 + [t])
    ensures forall u :: u in l0 + l1 ==> u.Number() < t.Number()
  {
    NumberedSnoc(l0, t);
    assert forall u :: u in l0 + [t] ==> u in l0 || u == t;
    assert forall u :: u in l0 + l1 ==> u in l0 || u in l1;
  }

  /** Level 0 after writing `t` and compacting into level 1. */
  function AfterCompaction(levels: map<int, seq<Table>>, t: Table, r: Compaction.Compacted): map<int, seq<Table>>
  {
    levels[0 := Level(levels, 0) + [t]][0 := r.l0][1 := r.l1]
  }

  /** Only levels 0 and 1 change in a compaction. */
  lemma AfterCompactionLevels(levels: map<int, seq<Table>>, t: Table, r: Compaction.Compacted)
    ensures Level(AfterCompaction(levels, t, r), 0) == r.l0
    ensures Level(AfterCompaction(levels, t, r), 1) == r.l1
    ensures Level(AfterCompaction(levels, t, r), 2) == Level(levels, 2)
  {
  }

  /** Each level's answer after a compaction seeded by the new level-0
      table `t`, older than which every other table is. */
  lemma CompactedAnswers(codec: TableCodec, l0: seq<Table>, l1: seq<Table>, l2: seq<Table>, t: Table,
                         next: int64, k: Key)
    requires Invertible(codec) && WellFormed(codec, t) && Get(Contents(t), k).Some?
    requires forall u :: u in l0 ==> WellFormed(codec, u) && u.Number() < t.Number()
    requires forall u :: u in l1 ==> WellFormed(codec, u) && u.Number() < t.Number() && u.Number() != next
    requires forall u :: u in l2 ==> WellFormed(codec, u)
    requires Numbered(l0) && Compaction.Disjoint(l1) && Compaction.Disjoint(l2)
    requires Compaction.Surviving(Get(Contents(t), k)).None? ==> forall u :: u in l2 ==> Get(Contents(u), k) == None
    requires Compaction.Compact(codec, l0 + [t], l1, next).created.Some?
    ensures var r := Compaction.Compact(codec, l0 + [t], l1, next);
      && FindFromL0(codec, r.l0, k) == Success(None)
      && FindFromLevel(codec, r.l1, k) == Success(Compaction.Surviving(Get(Contents(t), k)))
      && (Compaction.Surviving(Get(Contents(t), k)).None? ==> FindFromLevel(codec, l2, k) == Success(None))
  {
    SnocFacts(codec, l0, l1, t);
    CompactedL0Misses(codec, l0, l1, next, t, k);
    CompactedL1Finds(codec, l0, l1, next, t, k);
    DisjointApart(l2);
    LevelFinds(codec, l2, k);
  }

  /** What the tables answer after the frozen memtable is written as `t`
      and compaction runs: the command `t` holds when compaction writes
      nothing, and what the merged table keeps of it otherwise. */
  lemma DumpedFinds(cfg: Config, s: Store, t: Table, k: Key)
    requires Valid(cfg, s) && s.nextFileNumber < MaxLong
    requires WellFormed(cfg.tableCodec, t) && t.Number() == s.nextFileNumber && Get(Contents(t), k).Some?
    requires Compaction.Surviving(Get(Contents(t), k)).None? ==>
      forall u :: u in Level(s.levels, 2) ==> Get(Contents(u), k) == None
    ensures var r := Compaction.Compact(cfg.tableCodec, Level(s.levels, 0) + [t], Level(s.levels, 1),
                                        NextLong(s.nextFileNumber));
      && (r.created.None? ==>
            FindFromSstables(cfg.tableCodec, s.levels[0 := Level(s.levels, 0) + [t]], k)
            == Success(Get(Contents(t), k)))
      && (r.created.Some? ==>
            FindFromSstables(cfg.tableCodec, AfterCompaction(s.levels, t, r), k)
            == Success(Compaction.Surviving(Get(Contents(t), k))))
  {
    var codec := cfg.tableCodec;
    var next := NextLong(s.nextFileNumber);
    ValidLevels(cfg, s);
    var r := Compaction.Compact(codec, Level(s.levels, 0) + [t], Level(s.levels, 1), next);
    if r.created.Some? {
      CompactedAnswers(codec, Level(s.levels, 0), Level(s.levels, 1), Level(s.levels, 2), t, next, k);
      AfterCompactionLevels(s.levels, t, r);
      SstablesAnswer(codec, AfterCompaction(s.levels, t, r), k);
    } else {
      FlushedFinds(codec, s.levels, t, k);
    }
  }

  /** A write is visible to the next `get` of its key: a value is read
      back and a tombstone reads as absent, whether the write stays in the
      memtable, waits frozen after a failed flush, lands in a new level-0
      table, or is merged by the compaction that follows. A tombstone merged
      into level 1 is dropped, so this needs level 2 not to hold the key. */
  lemma WriteThenGet(cfg: Config, s: Store, c: Command)
    requires Valid(cfg, s) && |cfg.commandCodec.encode(c)| <= MaxArrayLength && s.nextFileNumber < MaxLong
    requires c.Remove? ==> forall t :: t in Level(s.levels, 2) ==> Get(Contents(t), c.key) == None
    ensures GetValue(cfg, Write(cfg, s, c).store, c.key) == Success(Answer(Some(c)))
  {
    var s1 := Append(cfg, s, c).value;
    if Size(s1.memtable) > cfg.storeThreshold {
      DumpedGet(cfg, s, SwitchIndex(s1), c);
    }
  }

  /** After the switch, the dump leaves the command visible: in the frozen
      memtable when the table write fails, in the tables otherwise. */
  lemma DumpedGet(cfg: Config, s: Store, s2: Store, c: Command)
    requires Valid(cfg, s) && s.nextFileNumber < MaxLong
    requires c.Remove? ==> forall t :: t in Level(s.levels, 2) ==> Get(Contents(t), c.key) == None
    requires s2.immutable.Some? && Sorted(s2.immutable.value) && Get(s2.immutable.value, c.key) == Some(c)
    requires s2.memtable == [] && s2.levels == s.levels && s2.nextFileNumber == s.nextFileNumber
    ensures GetValue(cfg, DumpToL0(cfg, s2).store, c.key) == Success(Answer(Some(c)))
  {
    var k := c.key;
    var f := Flush(cfg, s2);
    if f.error.None? {
      var st := f.store;
      var t := Level(st.levels, 0)[|Level(s.levels, 0)|];
      DumpedFinds(cfg, s, t, k);
    }
  }

  // ---------------------------------------------------------------------------
  // Writes keep the invariant.
  // ---------------------------------------------------------------------------

  /** Appending a command keeps the log in step with the memtable. */
  lemma AppendKeepsLogs(cfg: Config, s: Store, c: Command)
    requires Wal.Invertible(cfg.commandCodec) && LogsValid(cfg.commandCodec, s)
    requires |cfg.commandCodec.encode(c)| <= MaxArrayLength
    ensures LogsValid(cfg.commandCodec, Append(cfg, s, c).value)
  {
    Wal.ReplayAppend(cfg.commandCodec, s.wal, [], c);
  }

  /** Switching starts an empty log for an empty memtable and keeps the
      old log with the frozen memtable. */
  lemma SwitchKeepsLogs(codec: Wal.CommandCodec, s: Store)
    requires LogsValid(codec, s)
    ensures LogsValid(codec, SwitchIndex(s))
  {
  }

  /** A larger counter keeps every table below it. */
  lemma TablesLater(codec: TableCodec, levels: map<int, seq<Table>>, n: int64, m: int64)
    requires TablesValid(codec, levels, n) && n <= m
    ensures TablesValid(codec, levels, m)
  {
  }

  /** A new level-0 table numbered with the counter keeps the tables in
      order once the counter moves on. */
  lemma FlushedTables(codec: TableCodec, levels: map<int, seq<Table>>, n: int64, t: Table)
    requires TablesValid(codec, levels, n) && WellFormed(codec, t) && t.Number() == n && n < MaxLong
    ensures TablesValid(codec, levels[0 := Level(levels, 0) + [t]], NextLong(n))
  {
    var l0 := Level(levels, 0);
    var after := levels[0 := l0 + [t]];
    assert forall u :: u in l0 + [t] ==> u in l0 || u == t;
    NumberedSnoc(l0, t);
    forall i, u | u in Level(after, i) ensures WellFormed(codec, u) && u.Number() < NextLong(n) {
      if i != 0 {
        assert Level(after, i) == Level(levels, i);
      }
    }
    forall i | 1 <= i < SstableMaxLevel ensures Compaction.Disjoint(Level(after, i)) {
      assert Level(after, i) == Level(levels, i);
    }
  }

  /** Distinct numbers stay distinct in a part of the tables. */
  lemma NumberedSubset(ts: seq<Table>, us: seq<Table>)
    requires Numbered(ts) && forall u :: u in us ==> u in ts
    ensures Numbered(us)
  {
  }

  /** Replacing levels 0 and 1 by parts of them plus a new, well-formed
      level-1 table numbered below the counter keeps the tables in order,
      if level 1 stays disjoint. */
  lemma ReplacedTables(codec: TableCodec, levels: map<int, seq<Table>>, n: int64,
                       r0: seq<Table>, r1: seq<Table>, c: Table)
    requires TablesValid(codec, levels, n)
    requires (forall u :: u in r0 ==> u in Level(levels, 0))
    requires (forall u :: u in r1 ==> u in Level(levels, 1) || u == c)
    requires WellFormed(codec, c) && c.Number() < n && Compaction.Disjoint(r1)
    ensures TablesValid(codec, levels[0 := r0][1 := r1], n)
  {
    var after := levels[0 := r0][1 := r1];
    NumberedSubset(Level(levels, 0), r0);
    assert Level(after, 0) == r0 && Level(after, 1) == r1;
    forall i, u | u in Level(after, i) ensures WellFormed(codec, u) && u.Number() < n {
      if i != 0 && i != 1 {
        assert Level(after, i) == Level(levels, i);
      }
    }
    forall i | 1 <= i < SstableMaxLevel ensures Compaction.Disjoint(Level(after, i)) {
      if i != 1 {
        assert Level(after, i) == Level(levels, i);
      }
    }
  }

  /** The compaction after a flush keeps the tables in order. */
  lemma CompactedTables(codec: TableCodec, levels: map<int, seq<Table>>, n: int64, t: Table)
    requires Invertible(codec) && TablesValid(codec, levels, n) && WellFormed(codec, t) && t.Number() == n
    requires n <= MaxLong - 2
    ensures var r := Compaction.Compact(codec, Level(levels, 0) + [t], Level(levels, 1), NextLong(n));
      && (r.created.None? ==> TablesValid(codec, levels[0 := Level(levels, 0) + [t]], r.next))
      && (r.created.Some? ==> TablesValid(codec, AfterCompaction(levels, t, r), r.next))
  {
    var l0 := Level(levels, 0) + [t];
    var l1 := Level(levels, 1);
    var flushed := levels[0 := l0];
    FlushedTables(codec, levels, n, t);
    assert Level(flushed, 0) == l0 && Level(flushed, 1) == l1;
    var r := Compaction.Compact(codec, l0, l1, NextLong(n));
    if r.created.Some? {
      CompactionReplaces(codec, flushed, NextLong(n));
      assert AfterCompaction(levels, t, r) == flushed[0 := r.l0][1 := r.l1];
    } else {
      TablesLater(codec, flushed, NextLong(n), r.next);
    }
  }

  /** A compaction that creates a table leaves the levels in order once its
      two levels are replaced. */
  lemma CompactionReplaces(codec: TableCodec, levels: map<int, seq<Table>>, next: int64)
    requires Invertible(codec) && TablesValid(codec, levels, next) && next < MaxLong
    requires Compaction.Compact(codec, Level(levels, 0), Level(levels, 1), next).created.Some?
    ensures var r := Compaction.Compact(codec, Level(levels, 0), Level(levels, 1), next);
      TablesValid(codec, levels[0 := r.l0][1 := r.l1], r.next)
  {
    var l0, l1 := Level(levels, 0), Level(levels, 1);
    var r := Compaction.Compact(codec, l0, l1, next);
    assert 1 < SstableMaxLevel;
    Compaction.CompactedSubsets(codec, l0, l1, next);
    Compaction.CreatedWellFormed(codec, l0, l1, next);
    Compaction.CompactKeepsDisjoint(codec, l0, l1, next);
    TablesLater(codec, levels, next, r.next);
    ReplacedTables(codec, levels, r.next, r.l0, r.l1, r.created.value);
  }

  /** Every write keeps the invariant, while the counter has room for the
      two numbers a flush and a compaction take. */
  lemma WriteKeepsValid(cfg: Config, s: Store, c: Command)
    requires Valid(cfg, s) && s.nextFileNumber <= MaxLong - 2
    ensures Valid(cfg, Write(cfg, s, c).store)
  {
    if |cfg.commandCodec.encode(c)| <= MaxArrayLength {
      AppendKeepsLogs(cfg, s, c);
      var s1 := Append(cfg, s, c).value;
      if Size(s1.memtable) > cfg.storeThreshold {
        var s2 := SwitchIndex(s1);
        SwitchKeepsLogs(cfg.commandCodec, s1);
        DumpKeepsValid(cfg, s2);
      }
    }
  }

  /** Writing the frozen memtable and compacting keeps the invariant. */
  lemma DumpKeepsValid(cfg: Config, s: Store)
    requires Valid(cfg, s) && s.immutable.Some? && s.nextFileNumber <= MaxLong - 2
    ensures Valid(cfg, DumpToL0(cfg, s).store)
  {
    var f := Flush(cfg, s);
    if f.error.Some? {
      TablesLater(cfg.tableCodec, s.levels, s.nextFileNumber, f.store.nextFileNumber);
    } else {
      var t := Level(f.store.levels, 0)[|Level(s.levels, 0)|];
      CompactedTables(cfg.tableCodec, s.levels, s.nextFileNumber, t);
    }
  }
}
