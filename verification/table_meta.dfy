/** The table footer (`TableMetaInfo`): a fixed trailing layout written forward
    after the sparse index and parsed backward from the end of the file. */
module TableMeta {
  import opened Wrappers
  import opened Bytes
  import Utf8
  import Keys

  /** The footer fields; `number` and `fileSize` live only in memory. */
  datatype TableMetaInfo = TableMetaInfo(
    version: int64,
    number: int64,
    dataStart: int64,
    dataLen: int64,
    indexStart: int64,
    indexLen: int64,
    partSize: int64,
    fileSize: int64,
    smallestKey: string,
    largestKey: string)

  /** Bytes the footer occupies besides the two keys: two int32 lengths and six longs. */
  const FixedFooterLen := 2 * 4 + 6 * 8

  /** A key short enough for its UTF-8 length to be a Java `int`. */
  predicate KeyFits(k: string)
  {
    |Utf8.Encode(k)| < 0x8000_0000
  }

  /** `key.getBytes(UTF_8).length`. */
  function Utf8Length(k: string): int32
    requires KeyFits(k)
  {
    |Utf8.Encode(k)|
  }

  /** The six longs, in the order they are written. */
  function Longs(m: TableMetaInfo): (r: seq<byte>)
    ensures |r| == 48
  {
    Int64Bytes(m.partSize) + Int64Bytes(m.dataStart) + Int64Bytes(m.dataLen)
    + Int64Bytes(m.indexStart) + Int64Bytes(m.indexLen) + Int64Bytes(m.version)
  }

  /** `DataOutput.writeBytes(s)`: the low eight bits of each UTF-16 unit. */
  function WriteBytes(s: string): (r: seq<byte>)
    ensures |r| == |Keys.Units(s)|
    ensures forall i :: 0 <= i < |r| ==> r[i] == Keys.Units(s)[i] % 256
  {
    if |s| == 0 then []
    else
      var units := Keys.CharUnits(s[0]);
      var low := seq(|units|, i requires 0 <= i < |units| => units[i] % 256);
      low + WriteBytes(s[1..])
  }

  /** `writeToFile` as written: each key's characters through `writeBytes`,
      followed by the key's UTF-8 length. */
  function WriteToFileAsWritten(m: TableMetaInfo): seq<byte>
    requires KeyFits(m.smallestKey) && KeyFits(m.largestKey)
  {
    WriteBytes(m.smallestKey) + Int32Bytes(Utf8Length(m.smallestKey))
    + WriteBytes(m.largestKey) + Int32Bytes(Utf8Length(m.largestKey))
    + Longs(m)
  }

  /** `writeToFile` with each key written as the UTF-8 bytes whose count it records. */
  function WriteToFile(m: TableMetaInfo): (r: seq<byte>)
    requires KeyFits(m.smallestKey) && KeyFits(m.largestKey)
    ensures |r| == |Utf8.Encode(m.smallestKey)| + |Utf8.Encode(m.largestKey)| + FixedFooterLen
  {
    KeyPart(m.smallestKey) + KeyPart(m.largestKey) + Longs(m)
  }

  /** `seek(p); bytes = new byte[n]; read(bytes); new String(bytes, UTF_8)`.
      `read` fills what the file still holds and leaves the rest zero. */
  function ReadKeyAt(f: seq<byte>, p: int, n: int): (r: Result<string>)
    ensures r.Success? && 0 <= p && 0 <= n && p + n <= |f| ==> Utf8.Decode(f[p..p + n]) == Some(r.value)
    ensures p < 0 || n < 0 ==> r.Failure?
  {
    if p < 0 then Failure(IoError)
    else if n < 0 then Failure(NegativeArraySize)
    else
      match Utf8.Decode(ReadPadded(f, p, n))
      case None => Failure(MalformedText)
      case Some(k) => Success(k)
  }

  /** `readFromFile`: the fields are read backward from the end of the file
      `f`; the key lengths locate the key bytes in front of them. */
  function ReadFromFile(f: seq<byte>): Result<TableMetaInfo>
  {
    var len := |f|;
    var version :- ReadLongAt(f, len - 8);
    var indexLen :- ReadLongAt(f, len - 8 * 2);
    var indexStart :- ReadLongAt(f, len - 8 * 3);
    var dataLen :- ReadLongAt(f, len - 8 * 4);
    var dataStart :- ReadLongAt(f, len - 8 * 5);
    var partSize :- ReadLongAt(f, len - 8 * 6);
    var keys :- ReadKeys(f);
    Success(TableMetaInfo(version, 0, dataStart, dataLen, indexStart, indexLen, partSize, 0,
                          keys.0, keys.1))
  }

  /** A key stored as its bytes followed by their int32 count, the count
      ending at `end`: the count read at `end - 4`, the bytes in front of it. */
  function ReadKeyBefore(f: seq<byte>, end: int): Result<(string, int32)>
  {
    var n :- ReadIntAt(f, end - 4);
    var k :- ReadKeyAt(f, end - 4 - n, n);
    Success((k, n))
  }

  /** The key part of `readFromFile`: the largest key's length and bytes sit
      just before the six longs (its length at `len - 52`), the smallest
      key's just before those (its length at `len - 56 - L`). */
  function ReadKeys(f: seq<byte>): Result<(string, string)>
  {
    match ReadKeyBefore(f, |f| - 8 * 6)
    case Failure(e) => Failure(e)
    case Success((largest, ln)) =>
      match ReadKeyBefore(f, |f| - 8 * 6 - 4 - ln)
      case Failure(e) => Failure(e)
      case Success((smallest, _)) => Success((smallest, largest))
  }

  /** What `readFromFile` recovers of a footer: every serialised field, with
      `number` and `fileSize` at their defaults. */
  function Persisted(m: TableMetaInfo): TableMetaInfo
  {
    m.(number := 0, fileSize := 0)
  }

  /** Reading the footer back from the end of any file that ends with it gives
      back its six longs and both keys. */
  lemma ReadWriteRoundTrip(prefix: seq<byte>, m: TableMetaInfo)
    requires KeyFits(m.smallestKey) && KeyFits(m.largestKey)
    ensures ReadFromFile(prefix + WriteToFile(m)) == Success(Persisted(m))
  {
    var f := prefix + WriteToFile(m);
    var front := prefix + KeyPart(m.smallestKey) + KeyPart(m.largestKey);
    assert f == front + Longs(m);
    assert f[|f| - 48..] == Longs(m);
    KeysRead(prefix, m);
    LongsRead(f, m);
    ReadFromFileOf(f, m);
  }

  lemma ReadFromFileOf(f: seq<byte>, m: TableMetaInfo)
    requires ReadLongAt(f, |f| - 8) == Success(m.version)
    requires ReadLongAt(f, |f| - 16) == Success(m.indexLen)
    requires ReadLongAt(f, |f| - 24) == Success(m.indexStart)
    requires ReadLongAt(f, |f| - 32) == Success(m.dataLen)
    requires ReadLongAt(f, |f| - 40) == Success(m.dataStart)
    requires ReadLongAt(f, |f| - 48) == Success(m.partSize)
    requires ReadKeys(f) == Success((m.smallestKey, m.largestKey))
    ensures ReadFromFile(f) == Success(Persisted(m))
  {
  }

  lemma LongsRead(f: seq<byte>, m: TableMetaInfo)
    requires |f| >= 48 && f[|f| - 48..] == Longs(m)
    ensures ReadLongAt(f, |f| - 8) == Success(m.version)
    ensures ReadLongAt(f, |f| - 16) == Success(m.indexLen)
    ensures ReadLongAt(f, |f| - 24) == Success(m.indexStart)
    ensures ReadLongAt(f, |f| - 32) == Success(m.dataLen)
    ensures ReadLongAt(f, |f| - 40) == Success(m.dataStart)
    ensures ReadLongAt(f, |f| - 48) == Success(m.partSize)
  {
    LongsParts(m);
    LongAt(f, 48, m.partSize);
    LongAt(f, 40, m.dataStart);
    LongAt(f, 32, m.dataLen);
    LongAt(f, 24, m.indexStart);
    LongAt(f, 16, m.indexLen);
    LongAt(f, 8, m.version);
  }

  /** Where each long sits among the six. */
  lemma LongsParts(m: TableMetaInfo)
    ensures Longs(m)[0..8] == Int64Bytes(m.partSize)
    ensures Longs(m)[8..16] == Int64Bytes(m.dataStart)
    ensures Longs(m)[16..24] == Int64Bytes(m.dataLen)
    ensures Longs(m)[24..32] == Int64Bytes(m.indexStart)
    ensures Longs(m)[32..40] == Int64Bytes(m.indexLen)
    ensures Longs(m)[40..48] == Int64Bytes(m.version)
  {
  }

  /** A long written `k` bytes before the end of the file, within its last
      48 bytes, reads back. */
  lemma LongAt(f: seq<byte>, k: int, v: int64)
    requires 8 <= k <= 48 <= |f|
    requires f[|f| - 48..][48 - k..56 - k] == Int64Bytes(v)
    ensures ReadLongAt(f, |f| - k) == Success(v)
  {
    assert f[|f| - k..|f| - k + 8] == f[|f| - 48..][48 - k..56 - k];
    Int64RoundTrip(v);
  }

  lemma ReadIntOf(f: seq<byte>, q: int, n: int32)
    requires 0 <= q && q + 4 <= |f| && f[q..q + 4] == Int32Bytes(n)
    ensures ReadIntAt(f, q) == Success(n)
  {
    Int32RoundTrip(n);
  }

  lemma ReadKeyOf(f: seq<byte>, p: int, k: string)
    requires 0 <= p && p + |Utf8.Encode(k)| <= |f|
    requires f[p..p + |Utf8.Encode(k)|] == Utf8.Encode(k)
    ensures ReadKeyAt(f, p, |Utf8.Encode(k)|) == Success(k)
  {
    Utf8.DecodeEncode(k);
  }

  /** A key written as its UTF-8 bytes followed by their count, with the count at `q`. */
  lemma KeyRead(f: seq<byte>, q: int, k: string)
    requires KeyFits(k)
    requires Utf8Length(k) <= q && q + 4 <= |f|
    requires f[q - Utf8Length(k)..q + 4] == KeyPart(k)
    ensures ReadKeyBefore(f, q + 4) == Success((k, Utf8Length(k)))
  {
    var n := Utf8Length(k);
    assert f[q..q + 4] == Int32Bytes(n) by {
      assert f[q..q + 4] == f[q - n..q + 4][n..];
    }
    assert f[q - n..q] == Utf8.Encode(k) by {
      assert f[q - n..q] == f[q - n..q + 4][..n];
    }
    ReadIntOf(f, q, n);
    ReadKeyOf(f, q - n, k);
  }

  lemma KeysRead(prefix: seq<byte>, m: TableMetaInfo)
    requires KeyFits(m.smallestKey) && KeyFits(m.largestKey)
    ensures ReadKeys(prefix + WriteToFile(m)) == Success((m.smallestKey, m.largestKey))
  {
    var sPart := KeyPart(m.smallestKey);
    var lPart := KeyPart(m.largestKey);
    var f := prefix + WriteToFile(m);
    assert f == prefix + sPart + (lPart + Longs(m));
    assert f == (prefix + sPart) + lPart + Longs(m);
    MiddleSlice(prefix, sPart, lPart + Longs(m));
    MiddleSlice(prefix + sPart, lPart, Longs(m));
    KeysReadAt(f, |prefix|, m.smallestKey, m.largestKey);
  }

  /** A key's bytes followed by their count. */
  function KeyPart(k: string): (r: seq<byte>)
    requires KeyFits(k)
    ensures |r| == |Utf8.Encode(k)| + 4
  {
    Utf8.Encode(k) + Int32Bytes(Utf8Length(k))
  }

  lemma KeysReadAt(f: seq<byte>, p: int, smallest: string, largest: string)
    requires KeyFits(smallest) && KeyFits(largest)
    requires 0 <= p && p + |KeyPart(smallest)| + |KeyPart(largest)| + 48 == |f|
    requires f[p..p + |KeyPart(smallest)|] == KeyPart(smallest)
    requires f[p + |KeyPart(smallest)|..p + |KeyPart(smallest)| + |KeyPart(largest)|] == KeyPart(largest)
    ensures ReadKeys(f) == Success((smallest, largest))
  {
    LargestRead(f, p + |KeyPart(smallest)|, largest);
    SmallestRead(f, p, smallest, largest);
    KeysFromParts(f, smallest, largest);
  }

  /** Both keys read back from the two key parts. */
  lemma KeysFromParts(f: seq<byte>, smallest: string, largest: string)
    requires KeyFits(largest)
    requires ReadKeyBefore(f, |f| - 8 * 6) == Success((largest, Utf8Length(largest)))
    requires ReadKeyBefore(f, |f| - 8 * 6 - 4 - Utf8Length(largest)).Success?
    requires ReadKeyBefore(f, |f| - 8 * 6 - 4 - Utf8Length(largest)).value.0 == smallest
    ensures ReadKeys(f) == Success((smallest, largest))
  {
  }

  /** The largest key's part ends where the six longs begin. */
  lemma LargestRead(f: seq<byte>, q: int, k: string)
    requires KeyFits(k)
    requires 0 <= q && q + |KeyPart(k)| + 48 == |f|
    requires f[q..q + |KeyPart(k)|] == KeyPart(k)
    ensures ReadKeyBefore(f, |f| - 8 * 6) == Success((k, Utf8Length(k)))
  {
    var n: int := Utf8Length(k);
    var lq := |f| - 8 * 6 - 4;
    assert lq - n == q && lq + 4 == q + |KeyPart(k)|;
    KeyRead(f, lq, k);
  }

  /** The smallest key's part ends where the largest key's begins. */
  lemma SmallestRead(f: seq<byte>, p: int, k: string, largest: string)
    requires KeyFits(k) && KeyFits(largest)
    requires 0 <= p && p + |KeyPart(k)| + |KeyPart(largest)| + 48 == |f|
    requires f[p..p + |KeyPart(k)|] == KeyPart(k)
    ensures ReadKeyBefore(f, |f| - 8 * 6 - 4 - Utf8Length(largest)) == Success((k, Utf8Length(k)))
  {
    var n: int := Utf8Length(k);
    var sq := |f| - 8 * 6 - 8 - Utf8Length(largest);
    assert sq - n == p && sq + 4 == p + |KeyPart(k)|;
    KeyRead(f, sq, k);
  }

  lemma MiddleSlice<T>(a: seq<T>, b: seq<T>, c: seq<T>)
    ensures (a + b + c)[|a|..|a| + |b|] == b
  {
  }

  /** For keys that are all ASCII, `writeBytes` and the UTF-8 encoding agree. */
  lemma {:induction false} WriteBytesAscii(s: string)
    requires Utf8.IsAscii(s)
    ensures WriteBytes(s) == Utf8.Encode(s)
  {
    if |s| > 0 {
      assert Utf8.IsAscii(s[1..]) by {
        forall i | 0 <= i < |s[1..]| ensures s[1..][i] as int < 0x80 {
          assert s[1..][i] == s[i + 1];
        }
      }
      WriteBytesAscii(s[1..]);
    }
  }

  /** As written, the footer still reads back when both keys are ASCII. */
  lemma AsWrittenAsciiRoundTrip(prefix: seq<byte>, m: TableMetaInfo)
    requires KeyFits(m.smallestKey) && KeyFits(m.largestKey)
    requires Utf8.IsAscii(m.smallestKey) && Utf8.IsAscii(m.largestKey)
    ensures ReadFromFile(prefix + WriteToFileAsWritten(m)) == Success(Persisted(m))
  {
    AsWrittenAsciiSame(m);
    ReadWriteRoundTrip(prefix, m);
  }

  /** For ASCII keys the footer as written and the corrected one are the same bytes. */
  lemma AsWrittenAsciiSame(m: TableMetaInfo)
    requires KeyFits(m.smallestKey) && KeyFits(m.largestKey)
    requires Utf8.IsAscii(m.smallestKey) && Utf8.IsAscii(m.largestKey)
    ensures WriteToFileAsWritten(m) == WriteToFile(m)
  {
    WriteBytesAscii(m.smallestKey);
    WriteBytesAscii(m.largestKey);
  }

  /** A table holding the single key U+00E9 (é): `writeBytes` emits one byte, 0xE9,
      while the recorded length is two, so the reader takes the length field's
      last byte together with 0xE9, which is not UTF-8. */
  /** The footer the original writer produces for the key "é": one low byte per key, then its length 2. */
  lemma AcuteFile()
    ensures var m := TableMetaInfo(0, 1, 0, 0, 0, 0, 0, 0, "\U{E9}", "\U{E9}");
      WriteToFileAsWritten(m) == [0xE9] + Int32Bytes(2) + [0xE9] + Int32Bytes(2) + Longs(m)
  {
    AcuteBytes();
  }

  lemma AsWrittenNonAsciiFails()
    ensures var m := TableMetaInfo(0, 1, 0, 0, 0, 0, 0, 0, "\U{E9}", "\U{E9}");
      && KeyFits(m.smallestKey)
      && ReadFromFile(WriteToFileAsWritten(m)) == Failure(MalformedText)
  {
    var m := TableMetaInfo(0, 1, 0, 0, 0, 0, 0, 0, "\U{E9}", "\U{E9}");
    AcuteFile();
    AcuteFooterFails(WriteToFileAsWritten(m), Longs(m));
  }

  /** Whatever the 48 trailing bytes, the footer `é`,2,`é`,2 stops at its largest key:
      the two bytes before the length, 0x02 0xE9, are not UTF-8. */
  lemma AcuteFooterFails(f: seq<byte>, tail: seq<byte>)
    requires |tail| == 48
    requires f == [0xE9] + Int32Bytes(2) + [0xE9] + Int32Bytes(2) + tail
    ensures ReadFromFile(f) == Failure(MalformedText)
  {
    AcuteBytes();
    assert f[6..10] == Int32Bytes(2) && f[4..6] == [0x02, 0xE9];
    assert ReadIntAt(f, 6) == Success(2) by {
      Int32RoundTrip(2);
    }
    assert Utf8.Decode([0x02, 0xE9]) == None;
    assert ReadKeyAt(f, 4, 2) == Failure(MalformedText);
    KeysFailFirst(f);
  }

  /** U+00E9 is two bytes of UTF-8 but one byte through `writeBytes`. */
  lemma AcuteBytes()
    ensures Utf8.Encode("\U{E9}") == [0xC3, 0xA9]
    ensures WriteBytes("\U{E9}") == [0xE9]
    ensures Int32Bytes(2) == [0, 0, 0, 2]
  {
    AcuteLowByte();
    assert Unsigned(2, 4) == [0, 0, 0, 2];
  }

  /** `writeBytes` keeps only 0xE9 of the one UTF-16 unit of "é". */
  lemma AcuteLowByte()
    ensures WriteBytes("\U{E9}") == [0xE9]
  {
    assert Keys.CharUnits('\U{E9}') == [0xE9];
    assert WriteBytes("\U{E9}") == [0xE9] + WriteBytes("");
  }

  /** Once the six longs are there, a failure to read the keys is the
      footer's failure. */
  lemma KeysFailFirst(f: seq<byte>)
    requires |f| >= 48 && ReadKeys(f).Failure?
    ensures ReadFromFile(f) == Failure(ReadKeys(f).error)
  {
  }
}
