/** The datum payload: a leading node-kind byte, then raw chunk bytes
    (CHUNK), the concatenated 32-byte hashes of the children (BIG_FILE),
    or 64-byte records of a zero-padded 32-byte name and a 32-byte hash
    (DIRECTORY). `ParseValue` is the receiving side; the encoders state
    the layout the parser expects. */
module Payload {
  import opened Bytes

  // Node kinds: the first byte of a datum payload.
  const NodeChunk: byte := 0
  const NodeBigFile: byte := 1
  const NodeDirectory: byte := 2
  /** Kind of a directory entry whose own datum has not been fetched yet. */
  const NodeUnknown: byte := 3

  const NameSize: nat := 32
  const RecordSize: nat := 64

  /** One parsed object. A directory entry's kind is not known until its
      own datum is fetched (the source tags it NODE_UNKNOWN). */
  datatype StrObject =
    | ChunkObj(data: seq<byte>)
    | BigFileObj(nbHash: nat, hashes: seq<byte>)
    | EntryObj(name: seq<byte>, hash: seq<byte>)

  /** A directory record as a sender lays it out. */
  datatype DirRecord = DirRecord(name: seq<byte>, hash: seq<byte>)

  /** `s` with its zero bytes removed. */
  function StripZeros(s: seq<byte>): (r: seq<byte>)
    ensures |r| <= |s|
    ensures forall i | 0 <= i < |r| :: r[i] != 0
  {
    if |s| == 0 then [] else (if s[0] != 0 then [s[0]] else []) + StripZeros(s[1..])
  }

  /** The payloads the parser can walk without leaving the value: a kind
      byte and, for a directory, whole records (one stray trailing byte is
      never looked at; two or more would make the source read past the
      value into the receive buffer). */
  predicate Parsable(data: seq<byte>)
  {
    |data| >= 1 && (data[0] == NodeDirectory ==> (|data| - 1) % RecordSize <= 1)
  }

  /** The directory loop of `ParceValue`, on the bytes after the kind byte:
      while more than one byte remains, take a name field with its zero
      bytes dropped and the hash after it. */
  function ParseEntries(rest: seq<byte>): seq<StrObject>
    requires |rest| % RecordSize <= 1
  {
    if |rest| > 1 then
      [EntryObj(StripZeros(rest[..NameSize]), rest[NameSize..RecordSize])] + ParseEntries(rest[RecordSize..])
    else []
  }

  /** `ParceValue`: dispatch on the kind byte. An unknown kind yields no
      list at all (`nil`), and so does a directory without a record, whose
      loop never appends. */
  function ParseValue(data: seq<byte>): (r: Option<seq<StrObject>>)
    requires Parsable(data)
    ensures data[0] == NodeChunk ==> r == Some([ChunkObj(data[1..])])
    ensures data[0] == NodeBigFile ==>
              && r.Some? && |r.value| == 1 && r.value[0].BigFileObj?
              && r.value[0].nbHash == (|data| - 1) / HashSize
              && r.value[0].hashes == data[1..1 + HashSize * r.value[0].nbHash]
    ensures data[0] == NodeDirectory && |data| > 2 ==> r.Some? && |r.value| > 0 && forall o | o in r.value :: o.EntryObj?
    ensures r.None? <==> data[0] > NodeDirectory || (data[0] == NodeDirectory && |data| <= 2)
  {
    if data[0] == NodeChunk then Some([ChunkObj(data[1..])])
    else if data[0] == NodeBigFile then
      var nb := (|data| - 1) / HashSize;
      Some([BigFileObj(nb, data[1..1 + HashSize * nb])])
    else if data[0] == NodeDirectory then
      if |data| <= 2 then None
      else
        EntriesAreEntries(data[1..]);
        Some(ParseEntries(data[1..]))
    else None
  }

  lemma {:induction false} EntriesAreEntries(rest: seq<byte>)
    requires |rest| % RecordSize <= 1
    ensures forall o | o in ParseEntries(rest) :: o.EntryObj?
  {
    if |rest| > 1 {
      EntriesAreEntries(rest[RecordSize..]);
    }
  }

  /** A directory payload of `k` whole records parses to exactly `k`
      entries in wire order: entry `i` is record `i`'s name without its
      zero bytes and the 32 bytes after the name. */
  lemma {:induction false} DirectoryLayout(rest: seq<byte>)
    requires |rest| % RecordSize <= 1
    ensures |ParseEntries(rest)| == |rest| / RecordSize
    ensures forall i | 0 <= i < |rest| / RecordSize ::
              ParseEntries(rest)[i] ==
                EntryObj(StripZeros(rest[RecordSize * i..RecordSize * i + NameSize]),
                         rest[RecordSize * i + NameSize..RecordSize * i + RecordSize])
  {
    if |rest| > 1 {
      var tail := rest[RecordSize..];
      DirectoryLayout(tail);
      var es := ParseEntries(rest);
      assert |rest| / RecordSize == 1 + |tail| / RecordSize;
      forall i | 0 <= i < |rest| / RecordSize
        ensures es[i] == EntryObj(StripZeros(rest[RecordSize * i..RecordSize * i + NameSize]),
                                  rest[RecordSize * i + NameSize..RecordSize * i + RecordSize])
      {
        if i > 0 {
          var j := i - 1;
          assert RecordSize * i == RecordSize + RecordSize * j;
          assert es[i] == ParseEntries(tail)[j];
          assert tail[RecordSize * j..RecordSize * j + NameSize] == rest[RecordSize * i..RecordSize * i + NameSize];
          assert tail[RecordSize * j + NameSize..RecordSize * j + RecordSize]
              == rest[RecordSize * i + NameSize..RecordSize * i + RecordSize];
        }
      }
    }
  }

  // ---------------------------------------------------------------------
  // The sending side of the layout.

  function EncodeChunk(data: seq<byte>): seq<byte>
  {
    [NodeChunk] + data
  }

  function EncodeBigFile(hashes: seq<seq<byte>>): seq<byte>
  {
    [NodeBigFile] + Flatten(hashes)
  }

  /** A name in its 32-byte field, padded with zero bytes. */
  function PadName(name: seq<byte>): (r: seq<byte>)
    requires |name| <= NameSize
    ensures |r| == NameSize && r[..|name|] == name
  {
    name + Zeros(NameSize - |name|)
  }

  predicate WellFormedRecord(e: DirRecord)
  {
    && |e.name| <= NameSize
    && (forall i | 0 <= i < |e.name| :: e.name[i] != 0)
    && |e.hash| == HashSize
  }

  function EncodeRecord(e: DirRecord): (r: seq<byte>)
    requires WellFormedRecord(e)
    ensures |r| == RecordSize
  {
    PadName(e.name) + e.hash
  }

  function EncodeDirectory(es: seq<DirRecord>): seq<byte>
    requires forall i | 0 <= i < |es| :: WellFormedRecord(es[i])
  {
    [NodeDirectory] + Flatten(seq(|es|, i requires 0 <= i < |es| => EncodeRecord(es[i])))
  }

  /** A chunk payload parses back to its bytes. */
  lemma ChunkRoundTrip(data: seq<byte>)
    ensures Parsable(EncodeChunk(data))
    ensures ParseValue(EncodeChunk(data)) == Some([ChunkObj(data)])
  {
    assert EncodeChunk(data)[1..] == data;
  }

  /** A BIG_FILE payload of `n` hashes parses to one object counting `n`
      hashes, hash `i` at bytes `[32i, 32i+32)` of the list. */
  lemma BigFileRoundTrip(hashes: seq<seq<byte>>)
    requires forall i | 0 <= i < |hashes| :: |hashes[i]| == HashSize
    ensures Parsable(EncodeBigFile(hashes))
    ensures var r := ParseValue(EncodeBigFile(hashes));
            && r == Some([BigFileObj(|hashes|, Flatten(hashes))])
            && forall i | 0 <= i < |hashes| :: Flatten(hashes)[HashSize * i..HashSize * i + HashSize] == hashes[i]
  {
    FlattenUniformLength(hashes, HashSize);
    var p := EncodeBigFile(hashes);
    assert (|p| - 1) / HashSize == |hashes|;
    assert p[1..1 + HashSize * |hashes|] == Flatten(hashes);
    forall i | 0 <= i < |hashes|
      ensures Flatten(hashes)[HashSize * i..HashSize * i + HashSize] == hashes[i]
    {
      FlattenUniformAt(hashes, HashSize, i);
    }
  }

  lemma {:induction false} StripZerosAppend(a: seq<byte>, b: seq<byte>)
    ensures StripZeros(a + b) == StripZeros(a) + StripZeros(b)
  {
    if |a| > 0 {
      assert (a + b)[1..] == a[1..] + b;
      StripZerosAppend(a[1..], b);
    } else {
      assert a + b == b;
    }
  }

  lemma {:induction false} StripZerosKeeps(s: seq<byte>)
    requires forall i | 0 <= i < |s| :: s[i] != 0
    ensures StripZeros(s) == s
  {
    if |s| > 0 {
      StripZerosKeeps(s[1..]);
    }
  }

  lemma {:induction false} StripZerosDrops(s: seq<byte>)
    requires forall i | 0 <= i < |s| :: s[i] == 0
    ensures StripZeros(s) == []
  {
    if |s| > 0 {
      StripZerosDrops(s[1..]);
    }
  }

  /** A name without zero bytes survives padding and stripping. */
  lemma PadNameRoundTrip(name: seq<byte>)
    requires |name| <= NameSize && forall i | 0 <= i < |name| :: name[i] != 0
    ensures StripZeros(PadName(name)) == name
  {
    StripZerosAppend(name, Zeros(NameSize - |name|));
    StripZerosKeeps(name);
    StripZerosDrops(Zeros(NameSize - |name|));
  }

  /** Encoding a directory listing and parsing it gives back every record,
      in order, for names of at most 32 non-zero bytes. */
  lemma {:induction false} DirectoryRoundTrip(es: seq<DirRecord>)
    requires forall i | 0 <= i < |es| :: WellFormedRecord(es[i])
    ensures Parsable(EncodeDirectory(es))
    ensures ParseValue(EncodeDirectory(es)) ==
              if |es| == 0 then None else Some(seq(|es|, i requires 0 <= i < |es| => EntryObj(es[i].name, es[i].hash)))
  {
    var records := seq(|es|, i requires 0 <= i < |es| => EncodeRecord(es[i]));
    FlattenUniformLength(records, RecordSize);
    var p := EncodeDirectory(es);
    assert p[1..] == Flatten(records);
    EntriesRoundTrip(es);
  }

  lemma {:induction false} EntriesRoundTrip(es: seq<DirRecord>)
    requires forall i | 0 <= i < |es| :: WellFormedRecord(es[i])
    ensures var f := Flatten(seq(|es|, i requires 0 <= i < |es| => EncodeRecord(es[i])));
            && |f| % RecordSize == 0
            && ParseEntries(f) == seq(|es|, i requires 0 <= i < |es| => EntryObj(es[i].name, es[i].hash))
  {
    var records := seq(|es|, i requires 0 <= i < |es| => EncodeRecord(es[i]));
    FlattenUniformLength(records, RecordSize);
    var f := Flatten(records);
    if |es| > 0 {
      var tailRecords := seq(|es| - 1, i requires 0 <= i < |es| - 1 => EncodeRecord(es[1..][i]));
      assert records[1..] == tailRecords;
      EntriesRoundTrip(es[1..]);
      var r0 := EncodeRecord(es[0]);
      assert f == r0 + Flatten(tailRecords);
      assert f[..NameSize] == PadName(es[0].name);
      assert f[NameSize..RecordSize] == es[0].hash;
      assert f[RecordSize..] == Flatten(tailRecords);
      PadNameRoundTrip(es[0].name);
    }
  }
}
