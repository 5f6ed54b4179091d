/** Scenarios over the index: two records inserted, looked up, one
    removed, the rest written and read back; a duplicate insert; a
    one-word id. Each is derived from the general lemmas of modules Struct
    and Codec. */
module Scenarios {
  import opened Wrappers
  import opened Bytes
  import opened Ids
  import opened Struct
  import opened Codec

  /** "Alice", "Bob" and "Smith" in ASCII. */
  const Alice: CStr := [65, 108, 105, 99, 101]
  const Bob: CStr := [66, 111, 98]
  const Smith: CStr := [83, 109, 105, 116, 104]

  /** Two words joined by one space, as a C string. */
  function TwoWords(first: CStr, second: CStr): (id: CStr)
    requires |first| > 0 && |second| > 0 && Space !in first
    ensures ParseId(Some(id)) == Some(Initials(first[0], second[0]))
    ensures |id| == |first| + 1 + |second|
  {
    ParseTwoWords(first, second);
    first + [Space] + second
  }

  function AliceSmith(): (id: CStr)
    ensures ValidId(id)
  {
    assert Space !in Alice by { assert forall k :: 0 <= k < |Alice| ==> Alice[k] != Space; }
    assert AlphaIndex(Smith[0]) == 18;
    TwoWords(Alice, Smith)
  }

  function BobSmith(): (id: CStr)
    ensures ValidId(id) && id != AliceSmith()
  {
    assert Space !in Bob by { assert forall k :: 0 <= k < |Bob| ==> Bob[k] != Space; }
    assert AlphaIndex(Smith[0]) == 18;
    var id := TwoWords(Bob, Smith);
    assert id[0] != AliceSmith()[0];
    id
  }

  /** "Alice Smith", code 1, no time. */
  function RecordA(): Record { Record(AliceSmith(), 1, None) }

  /** "Bob Smith", code 2, time 09:30:00. */
  function RecordB(): Record { Record(BobSmith(), 2, Some(Time(9, 30, 0))) }

  /** Inserting into a well-formed index an id it does not hold succeeds:
      the count goes up by one and the record is found. */
  lemma InsertFresh(hs: Index, r: Record)
    requires WellFormed(hs) && ValidId(r.id)
    requires forall q :: q in Traversal(hs) ==> q.id != r.id
    ensures Insertion(hs, r).outcome == Pass
    ensures WellFormed(Insertion(hs, r).index)
    ensures Size(Insertion(hs, r).index) == Size(hs) + 1
    ensures multiset(Traversal(Insertion(hs, r).index)) == multiset(Traversal(hs)) + multiset{r}
  {
    InsertionOutcome(hs, r);
    InsertionKeepsWellFormed(hs, r);
    InsertionAdds(hs, r);
  }

  /** An index holding just `a` holds no other id. */
  lemma OnlyRecord(hs: Index, a: Record, id: CStr)
    requires multiset(Traversal(hs)) == multiset{a} && a.id != id
    ensures forall q :: q in Traversal(hs) ==> q.id != id
  {
    forall q | q in Traversal(hs)
      ensures q.id != id
    {
      assert q in multiset(Traversal(hs));
    }
  }

  /** The index after inserting "Alice Smith". */
  function One(): (hs: Index)
    ensures WellFormed(hs) && Size(hs) == 1
    ensures multiset(Traversal(hs)) == multiset{RecordA()}
  {
    InsertFresh([], RecordA());
    Insertion([], RecordA()).index
  }

  /** The index after inserting "Alice Smith" and then "Bob Smith". */
  function Both(): (hs: Index)
    ensures WellFormed(hs) && Size(hs) == 2
    ensures multiset(Traversal(hs)) == multiset{RecordA(), RecordB()}
  {
    var one, b := One(), RecordB();
    OnlyRecord(one, RecordA(), b.id);
    InsertFresh(one, b);
    Insertion(one, b).index
  }

  /** Both inserts succeed, the count is 2, and "Alice Smith" is found with
      code 1 and no time. */
  lemma InsertTwoThenFind()
    ensures Insertion([], RecordA()) == Step(Pass, One())
    ensures Insertion(One(), RecordB()) == Step(Pass, Both())
    ensures Size(Both()) == 2
    ensures Lookup(Both(), Some(AliceSmith())) == Some(Record(AliceSmith(), 1, None))
  {
    InsertFresh([], RecordA());
    OnlyRecord(One(), RecordA(), RecordB().id);
    InsertFresh(One(), RecordB());
    var hs := Both();
    assert RecordA() in multiset(Traversal(hs));
    LookupComplete(hs, AliceSmith(), RecordA());
  }

  /** Removing a stored record's id from a well-formed index succeeds, the
      count drops by one, and the id is then not found. */
  lemma RemoveStored(hs: Index, r: Record)
    requires WellFormed(hs) && r in multiset(Traversal(hs))
    ensures Removal(hs, Some(r.id)).outcome == Pass
    ensures Size(Removal(hs, Some(r.id)).index) == Size(hs) - 1
    ensures Lookup(Removal(hs, Some(r.id)).index, Some(r.id)) == None
  {
    assert HasId(hs, r.id);
    RemovalOutcome(hs, Some(r.id));
    RemovalDeletes(hs, r.id);
  }

  /** Removing "Alice Smith" succeeds, the count drops to 1, and the id is
      then not found. */
  lemma RemoveThenMissing()
    ensures Removal(Both(), Some(AliceSmith())).outcome == Pass
    ensures Size(Removal(Both(), Some(AliceSmith())).index) == 1
    ensures Lookup(Removal(Both(), Some(AliceSmith())).index, Some(AliceSmith())) == None
  {
    RemoveStored(Both(), RecordA());
  }

  /** Removing one record from a well-formed index of at least two records
      with short ids leaves one that is written and read back `operator==`
      to itself. */
  lemma RemovalRoundTrip(hs: Index, r: Record)
    requires WellFormed(hs) && r in multiset(Traversal(hs)) && 2 <= Size(hs) <= 0x1_0000_0000
    requires forall q :: q in Traversal(hs) ==> |q.id| < 0x1_0000_0000
    ensures var left := Removal(hs, Some(r.id)).index;
      && Encode(left).Ok?
      && Decode(Encode(left).value).Ok?
      && WellFormed(Decode(Encode(left).value).value)
      && Equivalent(Decode(Encode(left).value).value, left)
  {
    RemoveStored(hs, r);
    RemovalKeepsWellFormed(hs, Some(r.id));
    RemovalDeletes(hs, r.id);
    var left := Removal(hs, Some(r.id)).index;
    forall q | q in Traversal(left)
      ensures |q.id| < 0x1_0000_0000
    {
      assert q in multiset(Traversal(left));
      assert q in multiset(Traversal(hs));
    }
    RoundTrip(left);
  }

  /** The ids of the two-record index are short enough to be written. */
  lemma BothShortIds()
    ensures forall q :: q in Traversal(Both()) ==> |q.id| < 0x1_0000_0000
  {
    var hs := Both();
    forall q | q in Traversal(hs)
      ensures |q.id| < 0x1_0000_0000
    {
      assert q in multiset(Traversal(hs));
    }
  }

  /** The index left after the removal, written and read back, is
      `operator==` to itself. */
  lemma WriteThenRead()
    ensures var left := Removal(Both(), Some(AliceSmith())).index;
      && Encode(left).Ok?
      && Decode(Encode(left).value).Ok?
      && WellFormed(Decode(Encode(left).value).value)
      && Equivalent(Decode(Encode(left).value).value, left)
  {
    BothShortIds();
    RemovalRoundTrip(Both(), RecordA());
  }

  /** Inserting "Alice Smith" a second time fails as a duplicate and the
      count stays 1. */
  lemma DuplicateInsert()
    ensures Insertion([], RecordA()) == Step(Pass, One())
    ensures Insertion(One(), RecordA()) == Step(Fail(DuplicateId), One())
    ensures Size(One()) == 1
  {
    var a := RecordA();
    InsertFresh([], a);
    var one := One();
    assert a in multiset(Traversal(one));
    InsertionOutcome(one, a);
    InsertionFailureKeepsRecords(one, a);
  }

  /** The one-word id "Alice" is refused by `operator+=` as malformed,
      changing nothing, and `GetItem` reports it as not found. */
  lemma OneWordId(hs: Index, code: u32, time: Option<Time>)
    requires Shaped(hs)
    ensures Insertion(hs, Record(Alice, code, time)) == Step(Fail(MalformedId), hs)
    ensures Lookup(hs, Some(Alice)) == None
  {
    assert Space !in Alice by { assert forall k :: 0 <= k < |Alice| ==> Alice[k] != Space; }
  }
}
