/** The binary layout of `Write` and of the file-reading constructor, as
    functions over byte sequences:

      magic 0x53324453, version 1, count      (three uint32_t)
      then per record: idLength (uint32_t), the id bytes (no terminator),
      Code (uint32_t), hasTime (one byte), and TIME when hasTime is set.

    All integer fields are 4-byte little-endian; TIME is its three 4-byte
    fields Hour, Min, Sec. */
module Codec {
  import opened Wrappers
  import opened Bytes
  import opened Ids
  import opened Struct

  const Magic: u32 := 0x53324453
  const Version: u32 := 1
  /** `sizeof(FileHeader)` */
  const FileHeaderSize := 12
  /** `sizeof(TIME)` */
  const TimeSize := 12

  function EncodeTime(t: Time): (s: seq<byte>)
    ensures |s| == TimeSize
  {
    U32Bytes(t.hour) + U32Bytes(t.min) + U32Bytes(t.sec)
  }

  function DecodeTime(s: seq<byte>): Time
    requires |s| >= TimeSize
  {
    Time(ReadU32(s), ReadU32(s[4..]), ReadU32(s[8..]))
  }

  /** The `hasTime` byte `Write` emits. */
  function TimeFlag(r: Record): byte
  {
    if r.time.Some? then 1 else 0
  }

  /** The TIME bytes that follow the flag, if any. */
  function TimeBytes(r: Record): seq<byte>
  {
    match r.time
    case None => []
    case Some(t) => EncodeTime(t)
  }

  /** One record as `Write` emits it. `idLength` is the id's length cast to
      `uint32_t`, and that many id bytes are written. */
  function EncodeItem(r: Record): seq<byte>
  {
    var n := |r.id| % 0x1_0000_0000;
    U32Bytes(n) + r.id[..n] + U32Bytes(r.code) + [TimeFlag(r)] + TimeBytes(r)
  }

  function EncodeItems(rs: seq<Record>): seq<byte>
  {
    if rs == [] then [] else EncodeItem(rs[0]) + EncodeItems(rs[1..])
  }

  function FileHeader(count: nat): seq<byte>
  {
    U32Bytes(Magic) + U32Bytes(Version) + U32Bytes(count)
  }

  /** `Write`: refuses an empty structure; otherwise the file header with the
      record count (cast to `uint32_t`) and every record in traversal
      order. */
  function Encode(hs: Index): Result<seq<byte>, Error>
  {
    if Size(hs) == 0 then Err(EmptyStructure)
    else Ok(FileHeader(Size(hs)) + EncodeItems(Traversal(hs)))
  }

  /** What `Write` emits: nothing for an empty structure; otherwise the
      bytes `S`, `D`, `2`, `S` (the magic number, least significant byte
      first), version 1, the record count, and then the records in
      traversal order. */
  lemma EncodeLayout(hs: Index)
    ensures Encode(hs) == Err(EmptyStructure) <==> Size(hs) == 0
    ensures Encode(hs).Ok? ==>
      var data := Encode(hs).value;
      && |data| >= FileHeaderSize
      && data[..4] == [0x53, 0x44, 0x32, 0x53]
      && data[4..8] == [1, 0, 0, 0]
      && data[8..12] == U32Bytes(Size(hs))
      && (Size(hs) < 0x1_0000_0000 ==> ReadU32(data[8..]) == Size(hs))
      && data[FileHeaderSize..] == EncodeItems(Traversal(hs))
  {
    if Size(hs) > 0 {
      var items := EncodeItems(Traversal(hs));
      var data := Encode(hs).value;
      assert data == U32Bytes(Magic) + U32Bytes(Version) + U32Bytes(Size(hs)) + items;
      U32BytesOf(Magic);
      U32BytesOf(Version);
      assert data[8..] == U32Bytes(Size(hs)) + items;
      if Size(hs) < 0x1_0000_0000 {
        U32RoundTrip(Size(hs), items);
      }
    }
  }

  /** A record read from the stream and the number of bytes it took. */
  datatype Item = Item(record: Record, used: nat)

  /** One record as the reader takes it: a missing or zero idLength is
      refused; a body cut short is refused; any nonzero hasTime byte means
      a TIME follows. The id is the C string the buffer holds once a
      terminator is put after it, so it ends at the first zero byte. */
  function DecodeItem(s: seq<byte>): (r: Result<Item, Error>)
    ensures r.Ok? ==> 0 < r.value.used <= |s|
  {
    if |s| < 4 then Err(BadIdLength)
    else
      var len := ReadU32(s);
      if len == 0 then Err(BadIdLength)
      else if |s| < 9 + len then Err(CorruptItem)
      else
        var id := CStrOf(s[4..4 + len]);
        var code := ReadU32(s[4 + len..]);
        if s[8 + len] == 0 then Ok(Item(Record(id, code, None), 9 + len))
        else if |s| < 9 + len + TimeSize then Err(CorruptItem)
        else Ok(Item(Record(id, code, Some(DecodeTime(s[9 + len..]))), 9 + len + TimeSize))
  }

  /** The reader's loop: `n` more records, each inserted with operator+=,
      whose failure ends the read. Bytes after the last record are
      ignored. */
  function DecodeItems(n: nat, s: seq<byte>, hs: Index): Result<Index, Error>
    requires Shaped(hs)
    decreases n
  {
    if n == 0 then Ok(hs)
    else
      match DecodeItem(s)
      case Err(e) => Err(e)
      case Ok(item) =>
        var step := Insertion(hs, item.record);
        if step.outcome.Fail? then Err(step.outcome.error)
        else DecodeItems(n - 1, s[item.used..], step.index)
  }

  /** One turn of the reader's loop: a record refused by the reader or by
      `operator+=` ends the reading with its error; otherwise the loop goes
      on after it. */
  lemma DecodeItemsNext(n: nat, s: seq<byte>, hs: Index)
    requires Shaped(hs) && n > 0
    ensures DecodeItem(s).Err? ==> DecodeItems(n, s, hs) == Err(DecodeItem(s).error)
    ensures DecodeItem(s).Ok? ==>
      var step := Insertion(hs, DecodeItem(s).value.record);
      && (step.outcome.Fail? ==> DecodeItems(n, s, hs) == Err(step.outcome.error))
      && (step.outcome.Pass? ==>
            DecodeItems(n, s, hs) == DecodeItems(n - 1, s[DecodeItem(s).value.used..], step.index))
  {
  }

  /** The file-reading constructor: a short file header, a wrong magic or a
      wrong version is refused; then `count` records are read into an empty
      structure. */
  function Decode(data: seq<byte>): Result<Index, Error>
  {
    if |data| < FileHeaderSize then Err(BadHeader)
    else if ReadU32(data) != Magic || ReadU32(data[4..]) != Version then Err(BadHeader)
    else DecodeItems(ReadU32(data[8..]), data[FileHeaderSize..], [])
  }

  // ---------------------------------------------------------------------
  // Round trip

  lemma CStrOfCStr(s: CStr)
    ensures CStrOf(s) == s
  {
  }

  lemma TimeRoundTrip(t: Time, rest: seq<byte>)
    ensures DecodeTime(EncodeTime(t) + rest) == t
  {
    var ts := EncodeTime(t) + rest;
    assert ts == U32Bytes(t.hour) + (U32Bytes(t.min) + U32Bytes(t.sec) + rest);
    U32RoundTrip(t.hour, U32Bytes(t.min) + U32Bytes(t.sec) + rest);
    assert ts[4..] == U32Bytes(t.min) + (U32Bytes(t.sec) + rest);
    U32RoundTrip(t.min, U32Bytes(t.sec) + rest);
    assert ts[8..] == U32Bytes(t.sec) + rest;
    U32RoundTrip(t.sec, rest);
  }

  /** Where each field of an encoded record sits. */
  lemma ItemLayout(r: Record, rest: seq<byte>)
    requires |r.id| < 0x1_0000_0000
    ensures var s := EncodeItem(r) + rest; var len := |r.id|;
      && |EncodeItem(r)| == 9 + len + |TimeBytes(r)|
      && ReadU32(s) == len
      && s[4..4 + len] == r.id
      && ReadU32(s[4 + len..]) == r.code
      && s[8 + len] == TimeFlag(r)
      && s[9 + len..] == TimeBytes(r) + rest
  {
    EncodedItem(r, rest);
    FieldLayout(|r.id|, r.id, r.code, TimeFlag(r), TimeBytes(r) + rest);
  }

  lemma EncodedItem(r: Record, rest: seq<byte>)
    requires |r.id| < 0x1_0000_0000
    ensures |EncodeItem(r)| == 9 + |r.id| + |TimeBytes(r)|
    ensures EncodeItem(r) + rest
         == U32Bytes(|r.id|) + (r.id + (U32Bytes(r.code) + ([TimeFlag(r)] + (TimeBytes(r) + rest))))
  {
    var len := |r.id|;
    assert len % 0x1_0000_0000 == len;
    assert r.id[..len] == r.id;
    Reassociate(U32Bytes(len), r.id, U32Bytes(r.code), [TimeFlag(r)], TimeBytes(r), rest);
  }

  lemma Reassociate(a: seq<byte>, b: seq<byte>, c: seq<byte>, d: seq<byte>, e: seq<byte>, f: seq<byte>)
    ensures a + b + c + d + e + f == a + (b + (c + (d + (e + f))))
  {
  }

  lemma FieldLayout(len: u32, id: seq<byte>, code: u32, flag: byte, rest: seq<byte>)
    requires |id| == len
    ensures var s := U32Bytes(len) + (id + (U32Bytes(code) + ([flag] + rest)));
      && ReadU32(s) == len
      && s[4..4 + len] == id
      && ReadU32(s[4 + len..]) == code
      && s[8 + len] == flag
      && s[9 + len..] == rest
  {
    var last := [flag] + rest;
    var after := U32Bytes(code) + last;
    var s := U32Bytes(len) + (id + after);
    U32RoundTrip(len, id + after);
    assert s[4 + len..] == after;
    U32RoundTrip(code, last);
    assert s[8 + len] == after[4] == last[0];
    assert s[9 + len..] == after[5..] == last[1..];
  }

  lemma DecodeItemRoundTrip(r: Record, rest: seq<byte>)
    requires 0 < |r.id| < 0x1_0000_0000
    ensures DecodeItem(EncodeItem(r) + rest) == Ok(Item(r, |EncodeItem(r)|))
  {
    ItemLayout(r, rest);
    CStrOfCStr(r.id);
    var len := |r.id|;
    var s := EncodeItem(r) + rest;
    match r.time
    case None =>
    case Some(t) =>
      TimeRoundTrip(t, rest);
  }

  /** Records the reader accepts into `hs`, one after the other. */
  predicate Loadable(rs: seq<Record>, hs: Index)
  {
    && DistinctIds(rs)
    && (forall k :: 0 <= k < |rs| ==> ValidId(rs[k].id) && |rs[k].id| < 0x1_0000_0000)
    && (forall k :: 0 <= k < |rs| ==> !HasId(hs, rs[k].id))
  }

  lemma LoadableTail(rs: seq<Record>, hs: Index, hs': Index)
    requires rs != [] && Loadable(rs, hs)
    requires multiset(Traversal(hs')) == multiset(Traversal(hs)) + multiset{rs[0]}
    ensures Loadable(rs[1..], hs')
  {
    forall k | 0 <= k < |rs| - 1
      ensures !HasId(hs', rs[1..][k].id)
    {
      forall q | q in Traversal(hs')
        ensures q.id != rs[k + 1].id
      {
        assert q in multiset(Traversal(hs'));
        if q != rs[0] {
          assert q in multiset(Traversal(hs));
        }
      }
    }
  }

  /** One accepted insertion, as the reader's loop needs it. */
  lemma AcceptedInsertion(hs: Index, r: Record)
    requires WellFormed(hs) && ValidId(r.id) && !HasId(hs, r.id)
    ensures Insertion(hs, r).outcome == Pass
    ensures WellFormed(Insertion(hs, r).index)
    ensures multiset(Traversal(Insertion(hs, r).index)) == multiset(Traversal(hs)) + multiset{r}
  {
    InsertionOutcome(hs, r);
    InsertionKeepsWellFormed(hs, r);
    InsertionAdds(hs, r);
  }

  lemma EncodeItemsCons(rs: seq<Record>, rest: seq<byte>)
    requires rs != []
    ensures EncodeItems(rs) + rest == EncodeItem(rs[0]) + (EncodeItems(rs[1..]) + rest)
  {
  }

  lemma {:induction false} EncodeItemsAppend(a: seq<Record>, b: seq<Record>)
    ensures EncodeItems(a + b) == EncodeItems(a) + EncodeItems(b)
  {
    if a == [] {
      assert a + b == b;
    } else {
      assert (a + b)[1..] == a[1..] + b;
      EncodeItemsAppend(a[1..], b);
    }
  }

  /** `Write` emits the records one after the other: the bytes after the
      next record are those of the records so far and then its own. */
  lemma EncodeItemsSnoc(a: seq<Record>, r: Record)
    ensures EncodeItems(a + [r]) == EncodeItems(a) + EncodeItem(r)
  {
    EncodeItemsAppend(a, [r]);
    assert EncodeItems([r]) == EncodeItem(r) + EncodeItems([]);
  }

  /** The reader's loop takes one record it accepts and goes on with the
      bytes after it. */
  lemma DecodeItemsCons(n: nat, r: Record, t: seq<byte>, hs: Index)
    requires Shaped(hs) && 0 < |r.id| < 0x1_0000_0000 && n > 0
    requires Insertion(hs, r).outcome == Pass
    ensures DecodeItems(n, EncodeItem(r) + t, hs) == DecodeItems(n - 1, t, Insertion(hs, r).index)
  {
    DecodeItemRoundTrip(r, t);
    assert (EncodeItem(r) + t)[|EncodeItem(r)|..] == t;
  }

  lemma MultisetCons(rs: seq<Record>)
    requires rs != []
    ensures multiset(rs) == multiset{rs[0]} + multiset(rs[1..])
  {
    assert rs == [rs[0]] + rs[1..];
  }

  /** Reading the encoding of loadable records inserts them all. */
  lemma {:induction false} DecodeItemsRoundTrip(rs: seq<Record>, hs: Index, rest: seq<byte>)
    requires WellFormed(hs) && Loadable(rs, hs)
    ensures DecodeItems(|rs|, EncodeItems(rs) + rest, hs).Ok?
    ensures WellFormed(DecodeItems(|rs|, EncodeItems(rs) + rest, hs).value)
    ensures multiset(Traversal(DecodeItems(|rs|, EncodeItems(rs) + rest, hs).value))
         == multiset(Traversal(hs)) + multiset(rs)
  {
    if rs != [] {
      var r := rs[0];
      assert ValidId(r.id) && !HasId(hs, r.id);
      AcceptedInsertion(hs, r);
      var hs' := Insertion(hs, r).index;
      EncodeItemsCons(rs, rest);
      DecodeItemsCons(|rs|, r, EncodeItems(rs[1..]) + rest, hs);
      LoadableTail(rs, hs, hs');
      DecodeItemsRoundTrip(rs[1..], hs', rest);
      MultisetCons(rs);
    }
  }

  /** A file that starts with a valid file header is read as its records. */
  lemma {:induction false} DecodeFileHeader(count: u32, rest: seq<byte>)
    ensures Decode(FileHeader(count) + rest) == DecodeItems(count, rest, [])
  {
    var data := FileHeader(count) + rest;
    var fromCount := U32Bytes(count) + rest;
    var fromVersion := U32Bytes(Version) + fromCount;
    assert data == U32Bytes(Magic) + fromVersion;
    U32RoundTrip(Magic, fromVersion);
    assert data[4..] == fromVersion;
    U32RoundTrip(Version, fromCount);
    assert data[8..] == fromCount by { assert data[8..] == fromVersion[4..]; }
    U32RoundTrip(count, rest);
    assert data[FileHeaderSize..] == rest by { assert data[FileHeaderSize..] == fromCount[4..]; }
  }

  /** The records of a well-formed structure can be read back into an empty
      one. */
  lemma TraversalLoadable(hs: Index)
    requires WellFormed(hs)
    requires forall r :: r in Traversal(hs) ==> |r.id| < 0x1_0000_0000
    ensures Loadable(Traversal(hs), [])
  {
    var rs := Traversal(hs);
    TraversalDistinct(hs);
    forall k | 0 <= k < |rs|
      ensures ValidId(rs[k].id)
    {
      StoredIdValid(hs, rs[k]);
    }
  }

  lemma SameMultisetSameSet(a: seq<Record>, b: seq<Record>)
    requires multiset(a) == multiset(b)
    ensures (set r | r in a) == (set r | r in b)
  {
    forall r
      ensures r in a <==> r in b
    {
      assert r in a <==> r in multiset(a);
      assert r in b <==> r in multiset(b);
    }
  }

  /** A written file read back gives a structure `operator==` to the one
      written: the same records, though each bucket's list comes back in
      reverse order, as the reader inserts at the head. */
  lemma RoundTrip(hs: Index)
    requires WellFormed(hs) && 0 < Size(hs) < 0x1_0000_0000
    requires forall r :: r in Traversal(hs) ==> |r.id| < 0x1_0000_0000
    ensures Encode(hs).Ok?
    ensures Decode(Encode(hs).value).Ok?
    ensures WellFormed(Decode(Encode(hs).value).value)
    ensures RecordSet(Decode(Encode(hs).value).value) == RecordSet(hs)
    ensures Equivalent(Decode(Encode(hs).value).value, hs)
  {
    var rs := Traversal(hs);
    TraversalLoadable(hs);
    DecodeFileHeader(Size(hs), EncodeItems(rs));
    DecodeItemsRoundTrip(rs, [], []);
    assert EncodeItems(rs) + [] == EncodeItems(rs);
    var back := Decode(Encode(hs).value).value;
    SameMultisetSameSet(Traversal(back), rs);
    EquivalentIffSameRecords(back, hs);
  }

  // ---------------------------------------------------------------------
  // Files the reader refuses

  /** A record cut short anywhere is refused. */
  lemma DecodeItemPrefix(r: Record, m: nat)
    requires 0 < |r.id| < 0x1_0000_0000 && m < |EncodeItem(r)|
    ensures DecodeItem(EncodeItem(r)[..m]).Err?
  {
    var e := EncodeItem(r);
    var s := e[..m];
    ItemLayout(r, []);
    assert e + [] == e;
    if m >= 4 {
      assert s[..4] == e[..4];
      if m >= 9 + |r.id| {
        assert s[8 + |r.id|] == e[8 + |r.id|];
      }
    }
  }

  lemma PrefixCons(rs: seq<Record>, m: nat)
    requires rs != [] && m <= |EncodeItems(rs)|
    ensures m < |EncodeItem(rs[0])| ==> EncodeItems(rs)[..m] == EncodeItem(rs[0])[..m]
    ensures m >= |EncodeItem(rs[0])| ==>
      EncodeItems(rs)[..m] == EncodeItem(rs[0]) + EncodeItems(rs[1..])[..m - |EncodeItem(rs[0])|]
  {
  }

  /** The records of a well-formed file cut short anywhere are refused. */
  lemma {:induction false} DecodeItemsPrefix(rs: seq<Record>, hs: Index, m: nat)
    requires WellFormed(hs) && Loadable(rs, hs) && m < |EncodeItems(rs)|
    ensures DecodeItems(|rs|, EncodeItems(rs)[..m], hs).Err?
  {
    var r := rs[0];
    var len := |EncodeItem(r)|;
    PrefixCons(rs, m);
    if m < len {
      DecodeItemPrefix(r, m);
    } else {
      assert ValidId(r.id) && !HasId(hs, r.id);
      AcceptedInsertion(hs, r);
      var hs' := Insertion(hs, r).index;
      DecodeItemsCons(|rs|, r, EncodeItems(rs[1..])[..m - len], hs);
      LoadableTail(rs, hs, hs');
      DecodeItemsPrefix(rs[1..], hs', m - len);
    }
  }

  /** Every proper prefix of a written file is refused by the reader. */
  lemma DecodeRejectsTruncation(hs: Index, m: nat)
    requires WellFormed(hs) && 0 < Size(hs) < 0x1_0000_0000
    requires forall r :: r in Traversal(hs) ==> |r.id| < 0x1_0000_0000
    requires Encode(hs).Ok? && m < |Encode(hs).value|
    ensures Decode(Encode(hs).value[..m]).Err?
  {
    var rs := Traversal(hs);
    var data := Encode(hs).value;
    if m >= FileHeaderSize {
      assert data[..m] == FileHeader(Size(hs)) + EncodeItems(rs)[..m - FileHeaderSize];
      DecodeFileHeader(Size(hs), EncodeItems(rs)[..m - FileHeaderSize]);
      TraversalLoadable(hs);
      DecodeItemsPrefix(rs, [], m - FileHeaderSize);
    }
  }

  /** The reader accepts only files that open with the bytes `S`, `D`, `2`,
      `S` (the magic number, least significant byte first) and version 1. */
  lemma DecodeChecksFileHeader(data: seq<byte>)
    requires Decode(data).Ok?
    ensures |data| >= FileHeaderSize
    ensures data[..4] == [0x53, 0x44, 0x32, 0x53]
    ensures data[4..8] == [1, 0, 0, 0]
  {
    HeaderFieldBytes(data);
  }

  /** The bytes of a file header with the right magic and version. */
  lemma HeaderFieldBytes(data: seq<byte>)
    requires |data| >= 8 && ReadU32(data) == Magic && ReadU32(data[4..]) == Version
    ensures data[..4] == [0x53, 0x44, 0x32, 0x53]
    ensures data[4..8] == [1, 0, 0, 0]
  {
    ReadU32Bytes(data);
    ReadU32Bytes(data[4..]);
    assert data[4..][..4] == data[4..8];
    U32BytesOf(Magic);
    U32BytesOf(Version);
  }

  /** A file that announces no records holds an empty structure, whatever
      follows the file header. */
  lemma DecodeNoRecords(rest: seq<byte>)
    ensures Decode(FileHeader(0) + rest) == Ok([])
  {
    DecodeFileHeader(0, rest);
  }

  /** `s` holds the encodings of `rs`, one after another, and then `tail`. */
  predicate Holds(rs: seq<Record>, s: seq<byte>, tail: seq<byte>)
    decreases |rs|
  {
    if rs == [] then s == tail
    else
      var k := |EncodeItem(rs[0])|;
      k <= |s| && s[..k] == EncodeItem(rs[0]) && Holds(rs[1..], s[k..], tail)
  }

  lemma {:induction false} HoldsEncodeItems(rs: seq<Record>, tail: seq<byte>)
    ensures Holds(rs, EncodeItems(rs) + tail, tail)
  {
    if rs != [] {
      var s, k := EncodeItems(rs) + tail, |EncodeItem(rs[0])|;
      EncodeItemsCons(rs, tail);
      assert s[..k] == EncodeItem(rs[0]);
      assert s[k..] == EncodeItems(rs[1..]) + tail;
      HoldsEncodeItems(rs[1..], tail);
    }
  }

  /** The reader's loop takes one record it accepts from the front of `s`. */
  lemma DecodeItemsFront(n: nat, r: Record, s: seq<byte>, hs: Index)
    requires Shaped(hs) && 0 < |r.id| < 0x1_0000_0000 && n > 0
    requires Insertion(hs, r).outcome == Pass
    requires |EncodeItem(r)| <= |s| && s[..|EncodeItem(r)|] == EncodeItem(r)
    ensures DecodeItems(n, s, hs) == DecodeItems(n - 1, s[|EncodeItem(r)|..], Insertion(hs, r).index)
  {
    var k := |EncodeItem(r)|;
    assert s == EncodeItem(r) + s[k..];
    DecodeItemsCons(n, r, s[k..], hs);
  }

  /** After records that `operator+=` accepts in turn, the next record the
      reader expects is one it cannot take: the read stops with the error
      those bytes give. */
  lemma {:induction false} DecodeItemsRefusedAfter(rs: seq<Record>, s: seq<byte>, hs: Index, tail: seq<byte>)
    requires WellFormed(hs) && Loadable(rs, hs) && Holds(rs, s, tail)
    requires DecodeItem(tail).Err?
    ensures DecodeItems(|rs| + 1, s, hs) == Err(DecodeItem(tail).error)
  {
    if rs != [] {
      var r, k := rs[0], |EncodeItem(rs[0])|;
      assert ValidId(r.id) && !HasId(hs, r.id);
      AcceptedInsertion(hs, r);
      var hs' := Insertion(hs, r).index;
      DecodeItemsFront(|rs| + 1, r, s, hs);
      LoadableTail(rs, hs, hs');
      DecodeItemsRefusedAfter(rs[1..], s[k..], hs', tail);
    }
  }

  lemma Regroup3(a: seq<byte>, b: seq<byte>, c: seq<byte>)
    ensures a + b + c == a + (b + c)
  {
  }

  lemma Regroup4(a: seq<byte>, b: seq<byte>, c: seq<byte>, d: seq<byte>)
    ensures a + b + c + d == a + (b + (c + d))
  {
  }

  /** A record whose idLength is zero is refused. */
  lemma DecodeItemEmptyId(rest: seq<byte>)
    ensures DecodeItem(U32Bytes(0) + rest) == Err(BadIdLength)
  {
    U32RoundTrip(0, rest);
  }

  /** The reader's loop refuses a zero idLength after any records that load. */
  lemma DecodeItemsEmptyId(rs: seq<Record>, rest: seq<byte>)
    requires Loadable(rs, [])
    ensures DecodeItems(|rs| + 1, EncodeItems(rs) + (U32Bytes(0) + rest), []) == Err(BadIdLength)
  {
    var tail := U32Bytes(0) + rest;
    DecodeItemEmptyId(rest);
    HoldsEncodeItems(rs, tail);
    DecodeItemsRefusedAfter(rs, EncodeItems(rs) + tail, [], tail);
  }

  /** A record whose idLength is zero is refused, wherever it comes in the
      file: after any records that load, where the count says one more
      follows. */
  lemma DecodeRejectsEmptyId(rs: seq<Record>, rest: seq<byte>)
    requires Loadable(rs, []) && |rs| < 0xFFFF_FFFF
    ensures Decode(FileHeader(|rs| + 1) + EncodeItems(rs) + U32Bytes(0) + rest) == Err(BadIdLength)
  {
    var body := EncodeItems(rs) + (U32Bytes(0) + rest);
    Regroup4(FileHeader(|rs| + 1), EncodeItems(rs), U32Bytes(0), rest);
    DecodeFileHeader(|rs| + 1, body);
    DecodeItemsEmptyId(rs, rest);
  }

  /** A file of one record is accepted exactly when `operator+=` accepts its
      id; a malformed id and a second initial that is not a letter are
      reported as such. */
  lemma DecodeSingleRecord(r: Record, rest: seq<byte>)
    requires 0 < |r.id| < 0x1_0000_0000
    ensures Decode(FileHeader(1) + EncodeItem(r) + rest).Ok? <==> ValidId(r.id)
    ensures ParseId(Some(r.id)).None? ==>
      Decode(FileHeader(1) + EncodeItem(r) + rest) == Err(MalformedId)
    ensures ParseId(Some(r.id)).Some? && !ValidId(r.id) ==>
      Decode(FileHeader(1) + EncodeItem(r) + rest) == Err(NotALetter)
  {
    assert FileHeader(1) + EncodeItem(r) + rest == FileHeader(1) + (EncodeItem(r) + rest);
    DecodeFileHeader(1, EncodeItem(r) + rest);
    DecodeItemRoundTrip(r, rest);
    InsertionOutcome([], r);
  }

  /** The reader refuses a record whose id is already stored, wherever the
      count leaves it and whatever bytes follow it. */
  lemma DecodeStoredId(n: nat, hs: Index, q: Record, rest: seq<byte>)
    requires n > 0 && WellFormed(hs) && HasId(hs, q.id) && |q.id| < 0x1_0000_0000
    ensures DecodeItems(n, EncodeItem(q) + rest, hs) == Err(DuplicateId)
  {
    var p :| p in Traversal(hs) && p.id == q.id;
    StoredIdValid(hs, p);
    InsertionOutcome(hs, q);
    DecodeItemRoundTrip(q, rest);
    DecodeItemsNext(n, EncodeItem(q) + rest, hs);
  }

  /** An id the index holds before a record loads is still held after it. */
  lemma HeldAfterLoad(rs: seq<Record>, hs: Index, hs': Index, id: CStr)
    requires rs != []
    requires multiset(Traversal(hs')) == multiset(Traversal(hs)) + multiset{rs[0]}
    requires HasId(hs, id) || exists k :: 0 <= k < |rs| && rs[k].id == id
    ensures HasId(hs', id) || exists k :: 0 <= k < |rs| - 1 && rs[1..][k].id == id
  {
    if HasId(hs, id) {
      var p :| p in Traversal(hs) && p.id == id;
      assert p in multiset(Traversal(hs));
      assert p in multiset(Traversal(hs'));
    } else {
      var k :| 0 <= k < |rs| && rs[k].id == id;
      if k == 0 {
        assert rs[0] in multiset(Traversal(hs'));
      } else {
        assert rs[1..][k - 1].id == id;
      }
    }
  }

  /** After records that `operator+=` accepts in turn, a record repeating an
      id already held (before or among them) ends the read with DuplicateId. */
  lemma {:induction false} DecodeItemsDuplicateAfter(rs: seq<Record>, s: seq<byte>, hs: Index, q: Record, rest: seq<byte>)
    requires WellFormed(hs) && Loadable(rs, hs) && Holds(rs, s, EncodeItem(q) + rest)
    requires |q.id| < 0x1_0000_0000
    requires HasId(hs, q.id) || exists k :: 0 <= k < |rs| && rs[k].id == q.id
    ensures DecodeItems(|rs| + 1, s, hs) == Err(DuplicateId)
  {
    if rs == [] {
      DecodeStoredId(1, hs, q, rest);
    } else {
      var r, k := rs[0], |EncodeItem(rs[0])|;
      assert ValidId(r.id) && !HasId(hs, r.id);
      AcceptedInsertion(hs, r);
      var hs' := Insertion(hs, r).index;
      DecodeItemsFront(|rs| + 1, r, s, hs);
      LoadableTail(rs, hs, hs');
      HeldAfterLoad(rs, hs, hs', q.id);
      DecodeItemsDuplicateAfter(rs[1..], s[k..], hs', q, rest);
    }
  }

  /** The reader's loop refuses a record repeating the id of one of the
      records before it, all of which load. */
  lemma DecodeItemsDuplicate(rs: seq<Record>, k: nat, q: Record, rest: seq<byte>)
    requires Loadable(rs, []) && |q.id| < 0x1_0000_0000
    requires k < |rs| && rs[k].id == q.id
    ensures DecodeItems(|rs| + 1, EncodeItems(rs) + (EncodeItem(q) + rest), []) == Err(DuplicateId)
  {
    var tail := EncodeItem(q) + rest;
    HoldsEncodeItems(rs, tail);
    DecodeItemsDuplicateAfter(rs, EncodeItems(rs) + tail, [], q, rest);
  }

  /** A file whose next record repeats the id of the `k`th record before
      it, all of which load, is refused with DuplicateId. */
  lemma DecodeRejectsDuplicate(rs: seq<Record>, k: nat, q: Record, rest: seq<byte>)
    requires Loadable(rs, []) && |rs| < 0xFFFF_FFFF && |q.id| < 0x1_0000_0000
    requires k < |rs| && rs[k].id == q.id
    ensures Decode(FileHeader(|rs| + 1) + EncodeItems(rs) + (EncodeItem(q) + rest)) == Err(DuplicateId)
  {
    DecodeItemsDuplicate(rs, k, q, rest);
    DecodeAfterRecords(rs, EncodeItem(q) + rest, Err(DuplicateId));
  }

  /** The error `operator+=` gives for an id it cannot take, whatever the
      index holds: MalformedId when `parseID` throws, NotALetter when the
      second initial is not a letter. */
  function IdError(id: CStr): Error
  {
    if ParseId(Some(id)).None? then MalformedId else NotALetter
  }

  /** The reader refuses a record whose id `operator+=` cannot take,
      wherever the count leaves it and whatever bytes follow it. */
  lemma DecodeInvalidId(n: nat, hs: Index, q: Record, rest: seq<byte>)
    requires n > 0 && WellFormed(hs) && 0 < |q.id| < 0x1_0000_0000 && !ValidId(q.id)
    ensures DecodeItems(n, EncodeItem(q) + rest, hs) == Err(IdError(q.id))
  {
    if HasId(hs, q.id) {
      var p :| p in Traversal(hs) && p.id == q.id;
      StoredIdValid(hs, p);
    }
    InsertionOutcome(hs, q);
    DecodeItemRoundTrip(q, rest);
    DecodeItemsNext(n, EncodeItem(q) + rest, hs);
  }

  /** After records that `operator+=` accepts in turn, a record whose id it
      cannot take ends the read with MalformedId or NotALetter. */
  lemma {:induction false} DecodeItemsInvalidAfter(rs: seq<Record>, s: seq<byte>, hs: Index, q: Record, rest: seq<byte>)
    requires WellFormed(hs) && Loadable(rs, hs) && Holds(rs, s, EncodeItem(q) + rest)
    requires 0 < |q.id| < 0x1_0000_0000 && !ValidId(q.id)
    ensures DecodeItems(|rs| + 1, s, hs) == Err(IdError(q.id))
  {
    if rs == [] {
      DecodeInvalidId(1, hs, q, rest);
    } else {
      var r, k := rs[0], |EncodeItem(rs[0])|;
      assert ValidId(r.id) && !HasId(hs, r.id);
      AcceptedInsertion(hs, r);
      var hs' := Insertion(hs, r).index;
      DecodeItemsFront(|rs| + 1, r, s, hs);
      LoadableTail(rs, hs, hs');
      DecodeItemsInvalidAfter(rs[1..], s[k..], hs', q, rest);
    }
  }

  /** The reader's loop refuses a record whose id `operator+=` cannot take,
      after any records that load. */
  lemma DecodeItemsInvalid(rs: seq<Record>, q: Record, rest: seq<byte>)
    requires Loadable(rs, []) && 0 < |q.id| < 0x1_0000_0000 && !ValidId(q.id)
    ensures DecodeItems(|rs| + 1, EncodeItems(rs) + (EncodeItem(q) + rest), []) == Err(IdError(q.id))
  {
    var tail := EncodeItem(q) + rest;
    HoldsEncodeItems(rs, tail);
    DecodeItemsInvalidAfter(rs, EncodeItems(rs) + tail, [], q, rest);
  }

  /** A file whose next record has an id `operator+=` cannot take, after
      records that all load, is refused with MalformedId when the id does not
      parse and with NotALetter when its second initial is not a letter. */
  lemma DecodeRejectsInvalidId(rs: seq<Record>, q: Record, rest: seq<byte>)
    requires Loadable(rs, []) && |rs| < 0xFFFF_FFFF
    requires 0 < |q.id| < 0x1_0000_0000 && !ValidId(q.id)
    ensures ParseId(Some(q.id)).None? ==>
      Decode(FileHeader(|rs| + 1) + EncodeItems(rs) + (EncodeItem(q) + rest)) == Err(MalformedId)
    ensures ParseId(Some(q.id)).Some? ==>
      Decode(FileHeader(|rs| + 1) + EncodeItems(rs) + (EncodeItem(q) + rest)) == Err(NotALetter)
  {
    DecodeItemsInvalid(rs, q, rest);
    DecodeAfterRecords(rs, EncodeItem(q) + rest, Err(IdError(q.id)));
  }

  /** A file announcing one record more than `rs` reads as the reader's loop
      reads the records and what follows them. */
  lemma DecodeAfterRecords(rs: seq<Record>, tail: seq<byte>, e: Result<Index, Error>)
    requires |rs| < 0xFFFF_FFFF
    requires DecodeItems(|rs| + 1, EncodeItems(rs) + tail, []) == e
    ensures Decode(FileHeader(|rs| + 1) + EncodeItems(rs) + tail) == e
  {
    Regroup3(FileHeader(|rs| + 1), EncodeItems(rs), tail);
    DecodeFileHeader(|rs| + 1, EncodeItems(rs) + tail);
  }
}
