/** An ordered map from key to command, as `ConcurrentSkipListMap<String, Command>`
    is used for the memtable and for the compaction merge buffer. It is kept as
    the sequence of its commands in strictly ascending key order, which is also
    its iteration order. */
module SortedMap {
  import opened Wrappers
  import opened Keys
  import opened Commands

  type Entries = seq<Command>

  /** Keys strictly ascending, hence also pairwise distinct. */
  predicate Sorted(t: Entries)
  {
    forall i, j :: 0 <= i < j < |t| ==> Lt(t[i].key, t[j].key)
  }

  /** `map.get(k)`: the command stored under `k`, or `None`. */
  function Get(t: Entries, k: Key): Option<Command>
  {
    if |t| == 0 then None
    else if t[0].key == k then Some(t[0])
    else Get(t[1..], k)
  }

  /** The keys present. */
  function KeySet(t: Entries): set<Key>
  {
    set c | c in t :: c.key
  }

  lemma {:induction false} GetSound(t: Entries, k: Key)
    ensures Get(t, k).Some? ==> Get(t, k).value in t && Get(t, k).value.key == k
    ensures Get(t, k).None? <==> k !in KeySet(t)
    decreases |t|
  {
    if |t| > 0 {
      GetSound(t[1..], k);
      assert t == [t[0]] + t[1..];
    }
  }

  /** In a sorted sequence the command stored under `k` is the entry with that key. */
  lemma {:induction false} GetAt(t: Entries, i: int)
    requires Sorted(t) && 0 <= i < |t|
    ensures Get(t, t[i].key) == Some(t[i])
    decreases i
  {
    if i > 0 {
      LtIrreflexive(t[0].key);
      assert Lt(t[0].key, t[i].key);
      GetAt(t[1..], i - 1);
    }
  }

  /** No key below the first one is present. */
  lemma GetBelowHead(t: Entries, k: Key)
    requires Sorted(t) && |t| > 0 && Lt(k, t[0].key)
    ensures Get(t, k) == None
  {
    GetSound(t, k);
    if Get(t, k).Some? {
      var c := Get(t, k).value;
      var i :| 0 <= i < |t| && t[i] == c;
      if i > 0 {
        LtTransitive(k, t[0].key, t[i].key);
      }
      LtIrreflexive(k);
    }
  }

  /** No key above the last one is present. */
  lemma GetAboveLast(t: Entries, k: Key)
    requires Sorted(t) && |t| > 0 && Lt(t[|t| - 1].key, k)
    ensures Get(t, k) == None
  {
    GetSound(t, k);
    if Get(t, k).Some? {
      var c := Get(t, k).value;
      var i :| 0 <= i < |t| && t[i] == c;
      if i < |t| - 1 {
        LtTransitive(k, t[|t| - 1].key, k);
      }
      LtIrreflexive(k);
    }
  }

  /** Every key lies between the first and the last. */
  lemma Bounded(t: Entries)
    requires Sorted(t) && |t| > 0
    ensures forall i :: 0 <= i < |t| ==> Le(t[0].key, t[i].key) && Le(t[i].key, t[|t| - 1].key)
  {
    forall i | 0 <= i < |t| ensures Le(t[0].key, t[i].key) && Le(t[i].key, t[|t| - 1].key) {
      LeIff(t[0].key, t[i].key);
      LeIff(t[i].key, t[|t| - 1].key);
    }
  }

  /** The first key does not occur again further on. */
  lemma TailLacksHead(t: Entries)
    requires Sorted(t) && |t| > 0
    ensures Get(t[1..], t[0].key) == None
  {
    if |t| > 1 {
      GetBelowHead(t[1..], t[0].key);
    }
  }

  /** A lookup in `a + b` answers from `a` when it can, and from `b` otherwise. */
  lemma {:induction false} GetAppend(a: Entries, b: Entries, k: Key)
    ensures Get(a + b, k) == if Get(a, k).Some? then Get(a, k) else Get(b, k)
    decreases |a|
  {
    if |a| == 0 {
      assert a + b == b;
    } else {
      assert (a + b)[0] == a[0] && (a + b)[1..] == a[1..] + b;
      GetAppend(a[1..], b, k);
    }
  }

  /** A suffix of a sorted sequence is sorted. */
  lemma SortedSuffix(a: Entries, b: Entries)
    requires Sorted(a + b)
    ensures Sorted(b)
  {
    forall i, j | 0 <= i < j < |b| ensures Lt(b[i].key, b[j].key) {
      assert b[i] == (a + b)[|a| + i] && b[j] == (a + b)[|a| + j];
    }
  }

  /** `map.put(c.key, c)`: upsert. */
  function Put(t: Entries, c: Command): (r: Entries)
    requires Sorted(t)
    ensures Sorted(r)
    ensures Get(r, c.key) == Some(c)
    ensures forall k :: k != c.key ==> Get(r, k) == Get(t, k)
    ensures |r| == if Get(t, c.key).Some? then |t| else |t| + 1
    ensures forall x :: x in r ==> x == c || x in t
    decreases |t|
  {
    if |t| == 0 then [c]
    else if Lt(c.key, t[0].key) then
      GetBelowHead(t, c.key);
      forall j | 0 < j < |t| ensures Lt(c.key, t[j].key) {
        LtTransitive(c.key, t[0].key, t[j].key);
      }
      [c] + t
    else if c.key == t[0].key then
      assert t == [t[0]] + t[1..];
      [c] + t[1..]
    else
      LtTotal(c.key, t[0].key);
      var rest := Put(t[1..], c);
      assert forall x :: x in rest ==> Lt(t[0].key, x.key);
      [t[0]] + rest
  }

  /** `map.remove(k)`. */
  function Delete(t: Entries, k: Key): (r: Entries)
    requires Sorted(t)
    ensures Sorted(r)
    ensures Get(r, k) == None
    ensures forall k' :: k' != k ==> Get(r, k') == Get(t, k')
    ensures forall x :: x in r ==> x in t
    ensures |r| <= |t|
    decreases |t|
  {
    if |t| == 0 then []
    else if t[0].key == k then
      TailLacksHead(t);
      t[1..]
    else
      var rest := Delete(t[1..], k);
      assert forall x :: x in rest ==> Lt(t[0].key, x.key);
      [t[0]] + rest
  }

  /** Two sorted maps that answer every lookup alike are the same sequence. */
  lemma {:induction false} Extensional(a: Entries, b: Entries)
    requires Sorted(a) && Sorted(b)
    requires forall k :: Get(a, k) == Get(b, k)
    ensures a == b
    decreases |a|
  {
    if |a| == 0 {
      if |b| > 0 { GetAt(b, 0); }
    } else if |b| == 0 {
      GetAt(a, 0);
    } else {
      GetAt(a, 0);
      GetAt(b, 0);
      GetSound(a, b[0].key);
      GetSound(b, a[0].key);
      var i :| 0 <= i < |a| && a[i] == b[0];
      var j :| 0 <= j < |b| && b[j] == a[0];
      if i > 0 && j > 0 {
        LtTransitive(a[0].key, a[i].key, b[j].key);
        LtIrreflexive(a[0].key);
      }
      assert a[0] == b[0];
      forall k ensures Get(a[1..], k) == Get(b[1..], k) {
        if k == a[0].key {
          TailLacksHead(a);
          TailLacksHead(b);
        } else {
          assert Get(a, k) == Get(a[1..], k) && Get(b, k) == Get(b[1..], k);
        }
      }
      Extensional(a[1..], b[1..]);
      assert a == [a[0]] + a[1..] && b == [b[0]] + b[1..];
    }
  }

  /** `t` after putting each command in turn. */
  function PutAll(t: Entries, cs: seq<Command>): (r: Entries)
    requires Sorted(t)
    ensures Sorted(r)
    decreases |cs|
  {
    if |cs| == 0 then t else PutAll(Put(t, cs[0]), cs[1..])
  }

  /** The last of the commands for `k`, if any: an independent statement of
      which command a run of puts keeps. */
  function LastFor(cs: seq<Command>, k: Key): (r: Option<Command>)
    ensures r.Some? ==> r.value in cs && r.value.key == k
    ensures r.None? ==> forall i :: 0 <= i < |cs| ==> cs[i].key != k
    decreases |cs|
  {
    if |cs| == 0 then None
    else if cs[|cs| - 1].key == k then Some(cs[|cs| - 1])
    else LastFor(cs[..|cs| - 1], k)
  }

  /** After putting commands in order, each key maps to its last command,
      and a key none of them names keeps its entry. */
  lemma {:induction false} LastWins(t: Entries, cs: seq<Command>, k: Key)
    requires Sorted(t)
    ensures Get(PutAll(t, cs), k) == if LastFor(cs, k).Some? then LastFor(cs, k) else Get(t, k)
    decreases |cs|
  {
    if |cs| > 0 {
      var front := cs[..|cs| - 1];
      var last := cs[|cs| - 1];
      assert cs == front + [last];
      PutAllSnoc(t, front, last);
      LastWins(t, front, k);
    }
  }

  /** Putting one more command after the others. */
  lemma {:induction false} PutAllSnoc(t: Entries, cs: seq<Command>, c: Command)
    requires Sorted(t)
    ensures PutAll(t, cs + [c]) == Put(PutAll(t, cs), c)
    decreases |cs|
  {
    if |cs| == 0 {
      assert cs + [c] == [c];
    } else {
      assert (cs + [c])[0] == cs[0] && (cs + [c])[1..] == cs[1..] + [c];
      PutAllSnoc(Put(t, cs[0]), cs[1..], c);
    }
  }

  lemma {:induction false} PutAllAppend(t: Entries, a: seq<Command>, b: seq<Command>)
    requires Sorted(t)
    ensures PutAll(t, a + b) == PutAll(PutAll(t, a), b)
    decreases |a|
  {
    if |a| == 0 {
      assert a + b == b;
    } else {
      assert (a + b)[0] == a[0] && (a + b)[1..] == a[1..] + b;
      PutAllAppend(Put(t, a[0]), a[1..], b);
    }
  }

  /** In a sorted sequence the last command for a key is the only one. */
  lemma {:induction false} LastForSorted(e: Entries, k: Key)
    requires Sorted(e)
    ensures LastFor(e, k) == Get(e, k)
    decreases |e|
  {
    if |e| > 0 {
      var front, last := e[..|e| - 1], e[|e| - 1];
      assert e == front + [last];
      assert Sorted(front);
      LastForSorted(front, k);
      GetAppend(front, [last], k);
      if last.key == k {
        GetSound(front, k);
        if Get(front, k).Some? {
          var i :| 0 <= i < |front| && front[i] == Get(front, k).value;
          assert e[i] == front[i];
          LtIrreflexive(k);
        }
      }
    }
  }

  /** Putting the commands of a sorted sequence into an empty map gives that
      sequence back. */
  lemma PutAllSorted(e: Entries)
    requires Sorted(e)
    ensures PutAll([], e) == e
  {
    forall k ensures Get(PutAll([], e), k) == Get(e, k) {
      LastWins([], e, k);
      LastForSorted(e, k);
    }
    Extensional(PutAll([], e), e);
  }
}
