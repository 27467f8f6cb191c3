/** The write-ahead log: every `set` and `rm` appends one record, the int32
    length of the serialised command followed by its bytes; on start-up
    `restoreFromWal` replays the records into the memtable. */
module Wal {
  import opened Wrappers
  import opened Keys
  import opened Commands
  import opened SortedMap
  import opened Bytes
  import Seqs

  /** How a command becomes a record's bytes and back. In the store this is
      JSON; the model keeps it abstract. `decode` fails on text that does not
      parse and gives `None` for an object that is no command
      (`jsonToCommand` returns `null`). */
  datatype CommandCodec = CommandCodec(
    encode: Command -> seq<byte>,
    decode: seq<byte> -> Result<Option<Command>>)

  /** Decoding undoes encoding. */
  ghost predicate Invertible(codec: CommandCodec)
  {
    forall c :: codec.decode(codec.encode(c)) == Success(Some(c))
  }

  /** `wal.writeInt(bytes.length); wal.write(bytes)`. */
  function Record(payload: seq<byte>): (r: seq<byte>)
    requires |payload| <= MaxArrayLength
    ensures |r| == IntWidth + |payload|
    ensures r[..IntWidth] == Int32Bytes(|payload|) && r[IntWidth..] == payload
  {
    Int32Bytes(|payload|) + payload
  }

  /** Every command serialises to a byte array Java can hold. */
  predicate Encodable(codec: CommandCodec, cs: seq<Command>)
  {
    forall i :: 0 <= i < |cs| ==> |codec.encode(cs[i])| <= MaxArrayLength
  }

  /** The log holding one record per command, in order. */
  function Records(codec: CommandCodec, cs: seq<Command>): (r: seq<byte>)
    requires Encodable(codec, cs)
    decreases |cs|
  {
    if |cs| == 0 then []
    else Record(codec.encode(cs[0])) + Records(codec, cs[1..])
  }

  /** The commands `restoreFromWal`'s loop reads from offset `start`: read
      the length, read that many bytes, keep the decoded command unless it is
      `null`, and move on by four plus the length, until the cursor reaches
      the file's length. A length field cut short by the end of the file
      fails (`EOFException`), a negative length fails when the array is
      allocated, unparsable text fails; a record whose bytes are cut short
      is read zero-padded. */
  function Parse(codec: CommandCodec, f: seq<byte>, start: nat): (r: Result<seq<Command>>)
    decreases |f| - start
  {
    if start >= |f| then Success([])
    else
      var len :- ReadIntAt(f, start);
      if len < 0 then Failure(NegativeArraySize)
      else
        var command :- codec.decode(ReadPadded(f, start + IntWidth, len));
        var rest :- Parse(codec, f, start + IntWidth + len);
        Success(Kept(command) + rest)
  }

  /** The commands one record contributes: none for `null`. */
  function Kept(command: Option<Command>): (r: seq<Command>)
    ensures |r| <= 1 && (command.Some? ==> r == [command.value])
  {
    if command.Some? then [command.value] else []
  }

  /** `restoreFromWal`: every command the log holds is put into the memtable
      in order. Any failure aborts the store's start-up, so a failed replay
      leaves no memtable to speak of. */
  function Replay(codec: CommandCodec, f: seq<byte>, memtable: Entries): (r: Result<Entries>)
    requires Sorted(memtable)
    ensures r.Success? <==> Parse(codec, f, 0).Success?
    ensures r.Success? ==> Sorted(r.value)
  {
    var commands :- Parse(codec, f, 0);
    Success(PutAll(memtable, commands))
  }

  /** Bytes appended after a whole record do not change how it reads. */
  lemma RecordKept(f: seq<byte>, g: seq<byte>, start: nat)
    requires |f| <= |g| && g[..|f|] == f
    requires start < |f| && ReadIntAt(f, start).Success? && ReadIntAt(f, start).value >= 0
    requires start + IntWidth + ReadIntAt(f, start).value <= |f|
    ensures ReadIntAt(g, start) == ReadIntAt(f, start)
    ensures var len := ReadIntAt(f, start).value;
      ReadPadded(g, start + IntWidth, len) == ReadPadded(f, start + IntWidth, len)
  {
    var len := ReadIntAt(f, start).value;
    assert start + IntWidth <= |f|;
    assert g[start..start + IntWidth] == f[start..start + IntWidth] by {
      assert g[..|f|][start..start + IntWidth] == g[start..start + IntWidth];
    }
    assert g[start + IntWidth..start + IntWidth + len] == f[start + IntWidth..start + IntWidth + len] by {
      assert g[..|f|][start + IntWidth..start + IntWidth + len] == g[start + IntWidth..start + IntWidth + len];
    }
  }

  /** One record at `start`: its length reads back, its payload lies right
      after it, and what follows starts where the record ends. */
  lemma RecordAt(f: seq<byte>, start: nat, payload: seq<byte>, rest: seq<byte>)
    requires |payload| <= MaxArrayLength
    requires start <= |f| && f[start..] == Record(payload) + rest
    ensures ReadIntAt(f, start) == Success(|payload|)
    ensures ReadPadded(f, start + IntWidth, |payload|) == payload
    ensures start + IntWidth + |payload| <= |f| && f[start + IntWidth + |payload|..] == rest
  {
    var r := Record(payload);
    assert f[start..start + IntWidth] == f[start..][..IntWidth] == r[..IntWidth];
    Int32RoundTrip(|payload|);
    assert f[start + IntWidth..start + IntWidth + |payload|] == f[start..][IntWidth..IntWidth + |payload|];
    assert f[start + IntWidth + |payload|..] == f[start..][|r|..];
  }

  /** A log of well-formed records parses back to exactly the commands
      written. */
  lemma {:induction false} ParseRecords(codec: CommandCodec, f: seq<byte>, start: nat, cs: seq<Command>)
    requires Invertible(codec) && Encodable(codec, cs)
    requires start <= |f| && f[start..] == Records(codec, cs)
    ensures Parse(codec, f, start) == Success(cs)
    decreases |cs|
  {
    if |cs| > 0 {
      var payload := codec.encode(cs[0]);
      RecordsHead(codec, f, start, cs);
      EncodableTail(codec, cs);
      ParseRecords(codec, f, start + IntWidth + |payload|, cs[1..]);
      ParseStep(codec, f, start, |payload|, payload, Some(cs[0]), cs[1..]);
      assert [cs[0]] + cs[1..] == cs;
    } else {
      assert f[start..] == [];
    }
  }

  /** The first of several records: its length and payload read back, and
      the other records follow it. */
  lemma RecordsHead(codec: CommandCodec, f: seq<byte>, start: nat, cs: seq<Command>)
    requires |cs| > 0 && Encodable(codec, cs)
    requires start <= |f| && f[start..] == Records(codec, cs)
    ensures var payload := codec.encode(cs[0]);
      && ReadIntAt(f, start) == Success(|payload|)
      && ReadPadded(f, start + IntWidth, |payload|) == payload
      && start + IntWidth + |payload| <= |f|
      && f[start + IntWidth + |payload|..] == Records(codec, cs[1..])
  {
    RecordAt(f, start, codec.encode(cs[0]), Records(codec, cs[1..]));
  }

  /** Every command after the first serialises as the whole list does. */
  lemma EncodableTail(codec: CommandCodec, cs: seq<Command>)
    requires |cs| > 0 && Encodable(codec, cs)
    ensures Encodable(codec, cs[1..])
  {
    forall i | 0 <= i < |cs[1..]| ensures |codec.encode(cs[1..][i])| <= MaxArrayLength {
      assert cs[1..][i] == cs[i + 1];
    }
  }

  /** Replaying a log of well-formed records from an empty memtable gives,
      for every key, the last command written for it. */
  lemma ReplayKeepsLast(codec: CommandCodec, cs: seq<Command>, k: Key)
    requires Invertible(codec) && Encodable(codec, cs)
    ensures Replay(codec, Records(codec, cs), []).Success?
    ensures Get(Replay(codec, Records(codec, cs), []).value, k) == LastFor(cs, k)
  {
    var f := Records(codec, cs);
    assert f[0..] == f;
    ParseRecords(codec, f, 0, cs);
    LastWins([], cs, k);
  }

  /** The log ends exactly where a record ends: from `start`, each length
      field is whole and non-negative and its payload lies within the log. */
  predicate Framed(f: seq<byte>, start: nat)
    decreases |f| - start
  {
    if start >= |f| then start == |f|
    else
      && ReadIntAt(f, start).Success?
      && var len := ReadIntAt(f, start).value;
      && len >= 0
      && start + IntWidth + len <= |f|
      && Framed(f, start + IntWidth + len)
  }

  /** A longer log whose first bytes are a framed log `f` parses as `f`'s
      commands followed by those from where `f` ends. */
  lemma {:induction false} ParseSplit(codec: CommandCodec, f: seq<byte>, g: seq<byte>, start: nat, tail: seq<Command>)
    requires |f| <= |g| && g[..|f|] == f && Framed(f, start)
    requires Parse(codec, f, start).Success? && Parse(codec, g, |f|) == Success(tail)
    ensures Parse(codec, g, start) == Success(Parse(codec, f, start).value + tail)
    decreases |f| - start
  {
    if start < |f| {
      var len := ReadIntAt(f, start).value;
      var next := start + IntWidth + len;
      var payload := ReadPadded(f, start + IntWidth, len);
      RecordKept(f, g, start);
      ParseSplit(codec, f, g, next, tail);
      SplitStep(codec, f, g, start, len, payload, codec.decode(payload).value, Parse(codec, f, next).value, tail);
    } else {
      assert [] + tail == tail;
    }
  }

  /** `ParseSplit` for one record, given it for the records after it. */
  lemma SplitStep(codec: CommandCodec, f: seq<byte>, g: seq<byte>, start: nat, len: int32, payload: seq<byte>,
                  command: Option<Command>, more: seq<Command>, tail: seq<Command>)
    requires start < |f| <= |g| && len >= 0
    requires ReadIntAt(f, start) == Success(len) && ReadIntAt(g, start) == Success(len)
    requires ReadPadded(f, start + IntWidth, len) == payload && ReadPadded(g, start + IntWidth, len) == payload
    requires codec.decode(payload) == Success(command)
    requires Parse(codec, f, start + IntWidth + len) == Success(more)
    requires Parse(codec, g, start + IntWidth + len) == Success(more + tail)
    ensures Parse(codec, f, start) == Success(Kept(command) + more)
    ensures Parse(codec, g, start) == Success(Kept(command) + more + tail)
  {
    ParseStep(codec, f, start, len, payload, command, more);
    ParseStep(codec, g, start, len, payload, command, more + tail);
    Seqs.Assoc(Kept(command), more, tail);
  }

  /** One pass of the loop over a whole, decodable record at `start`. */
  lemma ParseStep(codec: CommandCodec, f: seq<byte>, start: nat, len: int32, payload: seq<byte>,
                  command: Option<Command>, rest: seq<Command>)
    requires start < |f| && len >= 0 && ReadIntAt(f, start) == Success(len)
    requires ReadPadded(f, start + IntWidth, len) == payload && codec.decode(payload) == Success(command)
    requires Parse(codec, f, start + IntWidth + len) == Success(rest)
    ensures Parse(codec, f, start) == Success(Kept(command) + rest)
  {
  }

  /** Framing from a whole record at `start` onwards. */
  lemma FramedStep(f: seq<byte>, start: nat)
    requires start < |f| && ReadIntAt(f, start).Success? && ReadIntAt(f, start).value >= 0
    requires start + IntWidth + ReadIntAt(f, start).value <= |f|
    requires Framed(f, start + IntWidth + ReadIntAt(f, start).value)
    ensures Framed(f, start)
  {
  }

  /** A longer log whose first bytes are a framed log `f` is framed when it
      is framed from where `f` ends. */
  lemma {:induction false} FramedSplit(f: seq<byte>, g: seq<byte>, start: nat)
    requires |f| <= |g| && g[..|f|] == f
    requires Framed(f, start) && Framed(g, |f|)
    ensures Framed(g, start)
    decreases |f| - start
  {
    if start < |f| {
      RecordKept(f, g, start);
      FramedSplit(f, g, start + IntWidth + ReadIntAt(f, start).value);
      FramedStep(g, start);
    }
  }

  /** Writing one more record to a framed log that replays keeps it framed,
      and the replay then puts that command last. */
  lemma ReplayAppend(codec: CommandCodec, f: seq<byte>, memtable: Entries, c: Command)
    requires Invertible(codec) && |codec.encode(c)| <= MaxArrayLength && Sorted(memtable)
    requires Framed(f, 0) && Replay(codec, f, memtable).Success?
    ensures Framed(f + Record(codec.encode(c)), 0)
    ensures Replay(codec, f + Record(codec.encode(c)), memtable)
            == Success(Put(Replay(codec, f, memtable).value, c))
  {
    var payload := codec.encode(c);
    var g := f + Record(payload);
    assert g[..|f|] == f;
    assert g[|f|..] == Records(codec, [c]);
    ParseRecords(codec, g, |f|, [c]);
    RecordAt(g, |f|, payload, []);
    FramedStep(g, |f|);
    ParseSplit(codec, f, g, 0, [c]);
    FramedSplit(f, g, 0);
    PutAllSnoc(memtable, Parse(codec, f, 0).value, c);
  }
}
