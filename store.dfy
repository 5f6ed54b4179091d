/** The structure on the heap: `DataStructure` holds its header list
    `pStruct2`, and each `HEADER_C` its array of 26 bucket slots, updated in
    place. Every operation that has a specifying function is proved to act
    on `Model()` as that function (in Struct or Codec) says. */
module Store {
  import opened Wrappers
  import opened Bytes
  import opened Ids
  import opened Struct
  import opened Codec

  /** `HEADER_C`: the first initial and the 26 bucket slots `ppItems`, each
      holding its list of records from the head. */
  class HeaderNode {
    const cBegin: byte
    const ppItems: array<seq<Record>>

    /** `makeHeader`: a header for `firstLetter` with every slot empty. */
    constructor (firstLetter: byte)
      ensures cBegin == firstLetter && ppItems.Length == Alpha && fresh(ppItems)
      ensures ppItems[..] == EmptyHeader(firstLetter).buckets
    {
      cBegin := firstLetter;
      var slots := new seq<Record>[Alpha];
      var b := 0;
      while b < Alpha
        invariant 0 <= b <= Alpha
        invariant forall j :: 0 <= j < b ==> slots[j] == []
      {
        slots[b] := [];
        b := b + 1;
      }
      ppItems := slots;
    }
  }

  /** The value the header nodes `hs` hold in the current heap. */
  ghost function View(hs: seq<HeaderNode>): (m: Index)
    reads set h | h in hs :: h.ppItems
    ensures |m| == |hs|
    ensures forall i :: 0 <= i < |hs| ==> m[i] == Header(hs[i].cBegin, hs[i].ppItems[..])
  {
    seq(|hs|, i reads set h | h in hs :: h.ppItems
                requires 0 <= i < |hs| => Header(hs[i].cBegin, hs[i].ppItems[..]))
  }

  /** The position where `findHeader`'s walk stops is `FindPos`. */
  lemma FindPosAt(hs: Index, c: byte, k: nat)
    requires k <= |hs|
    requires forall j :: 0 <= j < k ==> CharCode(hs[j].cBegin) < CharCode(c)
    requires k < |hs| ==> CharCode(hs[k].cBegin) >= CharCode(c)
    ensures k == FindPos(hs, c)
  {
  }

  /** The position where the bucket scan stops is `Position`. */
  lemma PositionAt(list: seq<Record>, id: CStr, k: nat)
    requires k <= |list|
    requires forall j :: 0 <= j < k ==> list[j].id != id
    requires k < |list| ==> list[k].id == id
    ensures k == Position(list, id)
  {
  }

  lemma ConcatPrefixStep(bs: seq<seq<Record>>, b: nat)
    requires b < |bs|
    ensures Concat(bs[..b + 1]) == Concat(bs[..b]) + bs[b]
  {
    assert bs[..b + 1][..b] == bs[..b];
  }

  lemma TraversalPrefixStep(hs: Index, i: nat)
    requires i < |hs|
    ensures Traversal(hs[..i + 1]) == Traversal(hs[..i]) + Concat(hs[i].buckets)
  {
    assert hs[..i + 1][..i] == hs[..i];
  }

  /** Linking a header node in at `pos` links its value in at `pos`. */
  lemma ViewInsert(hs: seq<HeaderNode>, pos: nat, h: HeaderNode)
    requires pos <= |hs|
    ensures View(hs[..pos] + [h] + hs[pos..])
         == View(hs)[..pos] + [Header(h.cBegin, h.ppItems[..])] + View(hs)[pos..]
  {
    var a := View(hs[..pos] + [h] + hs[pos..]);
    var b := View(hs)[..pos] + [Header(h.cBegin, h.ppItems[..])] + View(hs)[pos..];
    assert |a| == |b|;
    forall j | 0 <= j < |a|
      ensures a[j] == b[j]
    {
      if j > pos {
        assert (hs[..pos] + [h] + hs[pos..])[j] == hs[j - 1];
      }
    }
  }

  /** What `WithHeader` is when a header for `c` has to be made. */
  lemma NewHeaderFacts(hs: Index, c: byte)
    requires WellFormed(hs) && !HasHeader(hs, c)
    ensures var w := hs[..FindPos(hs, c)] + [EmptyHeader(c)] + hs[FindPos(hs, c)..];
      WithHeader(hs, c) == w && WellFormed(w)
  {
    WithHeaderFacts(hs, c);
  }

  /** `WithHeader` when the header for `c` exists. */
  lemma FoundHeaderFacts(hs: Index, c: byte)
    requires WellFormed(hs) && HasHeader(hs, c)
    ensures WithHeader(hs, c) == hs
  {
    WithHeaderFacts(hs, c);
  }

  /** The walk along one bucket list in `GetItem`: the first record whose id
      equals `id` (`strcmp` is 0), if any. */
  method ScanBucket(list: seq<Record>, id: CStr) returns (r: Option<Record>)
    ensures r == FindIn(list, id)
    ensures r.Some? ==> r.value in list && r.value.id == id
    ensures r.None? <==> forall q :: q in list ==> q.id != id
  {
    var k := Locate(list, id);
    r := if k < |list| then Some(list[k]) else None;
  }

  /** How far along a bucket list the first record with this id sits (the
      list's length when there is none). */
  method Locate(list: seq<Record>, id: CStr) returns (k: nat)
    ensures k == Position(list, id)
  {
    k := 0;
    while k < |list| && list[k].id != id
      invariant k <= |list|
      invariant forall j :: 0 <= j < k ==> list[j].id != id
    {
      k := k + 1;
    }
    PositionAt(list, id, k);
  }

  /** The check `operator-=` makes after unlinking: are all 26 slots
      empty? It stops at the first slot that is not. */
  method HeaderIsEmpty(h: HeaderNode) returns (empty: bool)
    requires h.ppItems.Length == Alpha
    ensures empty == AllEmpty(h.ppItems[..])
  {
    var j := 0;
    while j < Alpha
      invariant j <= Alpha
      invariant forall t :: 0 <= t < j ==> h.ppItems[t] == []
    {
      if h.ppItems[j] != [] {
        return false;
      }
      j := j + 1;
    }
    return true;
  }

  /** Unlinking a header node at `pos` unlinks its value there. */
  lemma ViewDelete(hs: seq<HeaderNode>, pos: nat)
    requires pos < |hs|
    ensures View(hs[..pos] + hs[pos + 1..]) == View(hs)[..pos] + View(hs)[pos + 1..]
  {
    var a := View(hs[..pos] + hs[pos + 1..]);
    var b := View(hs)[..pos] + View(hs)[pos + 1..];
    assert |a| == |b|;
    forall j | 0 <= j < |a|
      ensures a[j] == b[j]
    {
      if j >= pos {
        assert (hs[..pos] + hs[pos + 1..])[j] == hs[j + 1];
      }
    }
  }

  /** The walk along one source list in the copy constructor: each record
      is cloned and linked at the tail, so the copy keeps the order. */
  method CopyList(list: seq<Record>) returns (copy: seq<Record>)
    ensures copy == list
  {
    copy := [];
    var k := 0;
    while k < |list|
      invariant k <= |list| && copy == list[..k]
    {
      copy := copy + [list[k]];
      k := k + 1;
    }
  }

  /** One header of the copy constructor: `makeHeader` for the same first
      initial, then every slot set to a copy of the source's list. */
  method CopyHeader(source: HeaderNode) returns (copy: HeaderNode)
    requires source.ppItems.Length == Alpha
    ensures fresh(copy) && fresh(copy.ppItems) && copy.ppItems.Length == Alpha
    ensures copy.cBegin == source.cBegin && copy.ppItems[..] == source.ppItems[..]
  {
    copy := new HeaderNode(source.cBegin);
    var b := 0;
    while b < Alpha
      invariant b <= Alpha
      invariant forall j :: 0 <= j < b ==> copy.ppItems[j] == source.ppItems[j]
      modifies copy.ppItems
    {
      var list := CopyList(source.ppItems[b]);
      copy.ppItems[b] := list;
      b := b + 1;
    }
  }

  /** The header list of a deep copy: new nodes in the same order, each
      with new slots holding the same lists. */
  method CopyHeaders(source: seq<HeaderNode>) returns (copy: seq<HeaderNode>)
    requires forall i :: 0 <= i < |source| ==> source[i].ppItems.Length == Alpha
    ensures |copy| == |source|
    ensures forall i :: 0 <= i < |copy| ==> fresh(copy[i]) && fresh(copy[i].ppItems) && copy[i].ppItems.Length == Alpha
    ensures forall i, j :: 0 <= i < j < |copy| ==> copy[i].ppItems != copy[j].ppItems
    ensures fresh(set h | h in copy :: h.ppItems)
    ensures View(copy) == View(source)
  {
    copy := [];
    var i := 0;
    while i < |source|
      invariant i <= |source| && |copy| == i
      invariant forall j :: 0 <= j < i ==> fresh(copy[j]) && fresh(copy[j].ppItems) && copy[j].ppItems.Length == Alpha
      invariant forall j, l :: 0 <= j < l < i ==> copy[j].ppItems != copy[l].ppItems
      invariant forall j :: 0 <= j < i ==>
        copy[j].cBegin == source[j].cBegin && copy[j].ppItems[..] == source[j].ppItems[..]
    {
      var h := CopyHeader(source[i]);
      copy := copy + [h];
      i := i + 1;
    }
  }

  lemma EmitStep(out: seq<byte>, done: seq<Record>, r: Record)
    ensures out + EncodeItems(done) + EncodeItem(r) == out + EncodeItems(done + [r])
  {
    EncodeItemsSnoc(done, r);
    Regroup3(out, EncodeItems(done), EncodeItem(r));
  }

  lemma EmitMore(out: seq<byte>, a: seq<Record>, b: seq<Record>)
    ensures out + EncodeItems(a) + EncodeItems(b) == out + EncodeItems(a + b)
  {
    EncodeItemsAppend(a, b);
  }

  /** The record loop of `Write` over one list: each record appended to
      the output as `EncodeItem` lays it out. */
  method EmitList(out: seq<byte>, list: seq<Record>) returns (out': seq<byte>)
    ensures out' == out + EncodeItems(list)
  {
    out' := out;
    var k := 0;
    while k < |list|
      invariant k <= |list| && out' == out + EncodeItems(list[..k])
    {
      EmitStep(out, list[..k], list[k]);
      assert list[..k + 1] == list[..k] + [list[k]];
      out' := out' + EncodeItem(list[k]);
      k := k + 1;
    }
    assert list[..k] == list;
  }

  /** The bucket loop of `Write` over one header: its 26 lists in turn. */
  method EmitHeader(out: seq<byte>, h: HeaderNode) returns (out': seq<byte>)
    requires h.ppItems.Length == Alpha
    ensures out' == out + EncodeItems(Concat(h.ppItems[..]))
  {
    ghost var bs := h.ppItems[..];
    out' := out;
    var b := 0;
    while b < Alpha
      invariant b <= Alpha && out' == out + EncodeItems(Concat(bs[..b]))
    {
      out' := EmitList(out', h.ppItems[b]);
      EmitMore(out, Concat(bs[..b]), bs[b]);
      ConcatPrefixStep(bs, b);
      b := b + 1;
    }
    assert bs[..b] == bs;
  }

  /** A record of header `i` without a match is a record of the whole
      traversal without one. */
  lemma UnmatchedAt(m: Index, o: Index, i: nat)
    requires Shaped(m) && Shaped(o) && i < |m|
    requires !forall r :: r in Concat(m[i].buckets) ==> Matches(r, Lookup(o, Some(r.id)))
    ensures !forall r :: r in Traversal(m) ==> Matches(r, Lookup(o, Some(r.id)))
  {
    var r :| r in Concat(m[i].buckets) && !Matches(r, Lookup(o, Some(r.id)));
    TraversalSplit(m, i);
    assert r in Traversal(m);
  }

  /** The headers before `i` and header `i` all matched: the headers up to
      and including `i` did. */
  lemma MatchedStep(m: Index, o: Index, i: nat)
    requires Shaped(m) && Shaped(o) && i < |m|
    requires forall r :: r in Traversal(m[..i]) ==> Matches(r, Lookup(o, Some(r.id)))
    requires forall r :: r in Concat(m[i].buckets) ==> Matches(r, Lookup(o, Some(r.id)))
    ensures forall r :: r in Traversal(m[..i + 1]) ==> Matches(r, Lookup(o, Some(r.id)))
  {
    TraversalPrefixStep(m, i);
  }

  /** The comparison `operator==` makes between a record and what
      `GetItem` found for its id: found at all, the same `Code`, `TIME`
      on both or on neither, and the same `Hour`, `Min` and `Sec`. */
  method Agrees(a: Record, found: Option<Record>) returns (ok: bool)
    ensures ok == Matches(a, found)
  {
    if found.None? || found.value.code != a.code || found.value.time.Some? != a.time.Some? {
      return false;
    }
    if found.value.time.Some? && a.time.Some? {
      var x, y := a.time.value, found.value.time.value;
      if x.hour != y.hour || x.min != y.min || x.sec != y.sec {
        return false;
      }
    }
    return true;
  }

  class DataStructure {
    /** `pStruct2`: the header nodes in list order. */
    var headers: seq<HeaderNode>
    ghost var Repr: set<object>

    /** The heap frame: every header's slots are in `Repr`, 26 of them, and
        no two headers share their slots. */
    ghost predicate Framed()
      reads this, Repr
    {
      && this in Repr
      && (forall i :: 0 <= i < |headers| ==> headers[i].ppItems in Repr && headers[i].ppItems.Length == Alpha)
      && (forall i, j :: 0 <= i < j < |headers| ==> headers[i].ppItems != headers[j].ppItems)
    }

    ghost predicate Valid()
      reads this, Repr
    {
      Framed() && WellFormed(View(headers))
    }

    ghost function Model(): Index
      reads this, set h | h in headers :: h.ppItems
    {
      View(headers)
    }

    /** The default constructor: no headers. */
    constructor ()
      ensures Valid() && fresh(Repr) && Model() == []
    {
      headers := [];
      Repr := {this};
    }
 
    /** `findHeader`: walk past the headers whose `cBegin` is below `c`;
        `previous` is the last of them (null at the head of the list), and
        `header` the next one when its `cBegin` is `c` (null otherwise). */
    method FindHeader(c: byte) returns (pos: nat, previous: HeaderNode?, header: HeaderNode?)
      requires Valid()
      ensures pos == FindPos(Model(), c)
      ensures previous == (if pos == 0 then null else headers[pos - 1])
      ensures header != null <==> HasHeaderAt(Model(), pos, c)
      ensures header != null ==> header == headers[pos]
      ensures header == null <==> !HasHeader(Model(), c)
    {
      ghost var m := Model();
      pos := 0;
      previous := null;
      while pos < |headers| && CharCode(headers[pos].cBegin) < CharCode(c)
        invariant pos <= |headers|
        invariant forall j :: 0 <= j < pos ==> CharCode(m[j].cBegin) < CharCode(c)
        invariant previous == (if pos == 0 then null else headers[pos - 1])
      {
        previous := headers[pos];
        pos := pos + 1;
      }
      FindPosAt(m, c, pos);
      FindPosExact(m, c);
      header := if pos < |headers| && headers[pos].cBegin == c then headers[pos] else null;
    }

    /** `GetItem`: the record with exactly this id, if stored. */
    method GetItem(id: Option<CStr>) returns (r: Option<Record>)
      requires Valid()
      ensures r == Lookup(Model(), id)
    {
      ghost var m := Model();
      var ini := ParseId(id);
      if ini.None? {
        return None;
      }
      var pos, previous, header := FindHeader(ini.value.first);
      if header == null {
        return None;
      }
      var b := AlphaIndex(ini.value.second);
      if b < 0 {
        return None;
      }
      r := ScanBucket(header.ppItems[b], id.value);
    }

    /** `GetItemsNumber`: counts every record, header by header, bucket by
        bucket, along each list. */
    method GetItemsNumber() returns (n: nat)
      requires Valid()
      ensures n == Size(Model())
    {
      var m := Model();
      n := 0;
      var i := 0;
      while i < |headers|
        invariant i <= |headers|
        invariant n == |Traversal(m[..i])|
      {
        var b := 0;
        while b < Alpha
          invariant b <= Alpha
          invariant n == |Traversal(m[..i])| + |Concat(m[i].buckets[..b])|
        {
          var list := headers[i].ppItems[b];
          var k := 0;
          while k < |list|
            invariant k <= |list|
            invariant n == |Traversal(m[..i])| + |Concat(m[i].buckets[..b])| + k
          {
            n := n + 1;
            k := k + 1;
          }
          ConcatPrefixStep(m[i].buckets, b);
          b := b + 1;
        }
        assert m[i].buckets[..b] == m[i].buckets;
        TraversalPrefixStep(m, i);
        i := i + 1;
      }
      assert m[..i] == m;
    }
 
    /** `insertHeaderSorted`: link `h` in after the header at `pos - 1`, or
        at the head of the list when `pos` is 0. */
    method InsertHeaderSorted(pos: nat, h: HeaderNode)
      requires pos <= |headers|
      modifies this
      ensures headers == old(headers[..pos]) + [h] + old(headers[pos..])
      ensures Repr == old(Repr) + {h.ppItems}
    {
      headers := headers[..pos] + [h] + headers[pos..];
      Repr := Repr + {h.ppItems};
    }

    /** The part of `operator+=` that finds the header for `c`, or makes
        one and links it in where `findHeader` stopped. */
    method EnsureHeader(c: byte) returns (pos: nat, header: HeaderNode)
      requires Valid()
      modifies this
      ensures Valid() && fresh(Repr - old(Repr))
      ensures Model() == WithHeader(old(Model()), c)
      ensures pos == FindPos(old(Model()), c) && pos < |headers| && header == headers[pos]
    {
      ghost var m0 := Model();
      var previous, found;
      pos, previous, found := FindHeader(c);
      if found == null {
        header := LinkNewHeader(pos, c);
        NewHeaderFacts(m0, c);
        assert Model() == WithHeader(m0, c);
        assert WellFormed(View(headers));
      } else {
        header := found;
        FoundHeaderFacts(m0, c);
      }
    }

    /** `makeHeader` and `insertHeaderSorted`: a new header node for `c`
        with empty slots, linked in at `pos`. */
    method LinkNewHeader(pos: nat, c: byte) returns (header: HeaderNode)
      requires Framed() && pos <= |headers|
      modifies this
      ensures Framed() && fresh(Repr - old(Repr))
      ensures Model() == old(Model())[..pos] + [EmptyHeader(c)] + old(Model())[pos..]
      ensures pos < |headers| && header == headers[pos]
    {
      ghost var before := headers;
      header := new HeaderNode(c);
      InsertHeaderSorted(pos, header);
      ViewInsert(before, pos, header);
      forall i, j | 0 <= i < j < |headers|
        ensures headers[i].ppItems != headers[j].ppItems
      {
        if i != pos && j != pos {
          assert headers[i].ppItems == before[if i < pos then i else i - 1].ppItems;
          assert headers[j].ppItems == before[if j < pos then j else j - 1].ppItems;
        }
      }
    }

    /** Head insertion of `r` into bucket `b` of the header at `pos`. */
    method PrependAt(pos: nat, b: nat, r: Record)
      requires Framed() && pos < |headers| && b < Alpha
      modifies headers[pos].ppItems
      ensures Model() == old(Model())[pos := Prepend(old(Model())[pos], b, r)]
    {
      ghost var w := Model();
      var slots := headers[pos].ppItems;
      slots[b] := [r] + slots[b];
      forall j | 0 <= j < |headers|
        ensures Model()[j] == w[pos := Prepend(w[pos], b, r)][j]
      {
        if j != pos {
          assert headers[j].ppItems != slots;
        }
      }
    }

    /** `operator+=`: stores a copy of `r` at the head of the bucket its id
        selects, creating the header for its first initial if needed. */
    method Insert(r: Record) returns (res: Outcome<Error>)
      requires Valid()
      modifies Repr
      ensures Valid() && fresh(Repr - old(Repr))
      ensures Step(res, Model()) == Insertion(old(Model()), r)
    {
      ghost var m0 := Model();
      var ini := ParseId(Some(r.id));
      if ini.None? {
        return Fail(MalformedId);
      }
      var existing := GetItem(Some(r.id));
      if existing.Some? {
        return Fail(DuplicateId);
      }
      var c := ini.value.first;
      var pos, header := EnsureHeader(c);
      var b := AlphaIndex(ini.value.second);
      if b < 0 {
        return Fail(NotALetter);
      }
      PrependAt(pos, b, r);
      InsertionKeepsWellFormed(m0, r);
      return Pass;
    }
 
    /** Unlinks the record at position `k` of bucket `b` of the header at
        `pos`. */
    method UnlinkAt(pos: nat, b: nat, k: nat)
      requires Framed() && pos < |headers| && b < Alpha && k < |headers[pos].ppItems[b]|
      modifies headers[pos].ppItems
      ensures var h := old(Model())[pos];
        Model() == old(Model())[pos := Header(h.cBegin, h.buckets[b := h.buckets[b][..k] + h.buckets[b][k + 1..]])]
    {
      ghost var w := Model();
      var slots := headers[pos].ppItems;
      var list := slots[b];
      slots[b] := list[..k] + list[k + 1..];
      ghost var h := w[pos];
      forall j | 0 <= j < |headers|
        ensures Model()[j] == w[pos := Header(h.cBegin, h.buckets[b := h.buckets[b][..k] + h.buckets[b][k + 1..]])][j]
      {
        if j != pos {
          assert headers[j].ppItems != slots;
        }
      }
    }

    /** Unlinks the header at `pos` from the list. */
    method DropHeader(pos: nat)
      requires Framed() && pos < |headers|
      modifies this
      ensures Framed() && Repr == old(Repr)
      ensures Model() == old(Model())[..pos] + old(Model())[pos + 1..]
    {
      ghost var before := headers;
      headers := headers[..pos] + headers[pos + 1..];
      ViewDelete(before, pos);
      forall i, j | 0 <= i < j < |headers|
        ensures headers[i].ppItems != headers[j].ppItems
      {
        assert headers[i].ppItems == before[if i < pos then i else i + 1].ppItems;
        assert headers[j].ppItems == before[if j < pos then j else j + 1].ppItems;
      }
    }

    /** The successful end of `operator-=`: unlink the record, then the
        header if it has no records left. */
    method UnlinkAndTidy(pos: nat, b: nat, k: nat)
      requires Framed() && pos < |headers| && b < Alpha && k < |headers[pos].ppItems[b]|
      modifies this, headers[pos].ppItems
      ensures Framed() && Repr == old(Repr)
      ensures var h := old(Model())[pos];
        var bs := h.buckets[b := h.buckets[b][..k] + h.buckets[b][k + 1..]];
        Model() == if AllEmpty(bs) then old(Model())[..pos] + old(Model())[pos + 1..]
                   else old(Model())[pos := Header(h.cBegin, bs)]
    {
      ghost var m0 := Model();
      var header := headers[pos];
      UnlinkAt(pos, b, k);
      var empty := HeaderIsEmpty(header);
      if empty {
        ghost var w := Model();
        DropHeader(pos);
        assert w[..pos] + w[pos + 1..] == m0[..pos] + m0[pos + 1..];
      }
    }

    /** `operator-=` once the record is found at position `k` of bucket `b`
        of the header at `pos`. */
    method RemoveFound(id: CStr, pos: nat, b: nat, k: nat)
      requires Valid() && ParseId(Some(id)).Some?
      requires pos == FindPos(Model(), ParseId(Some(id)).value.first)
      requires HasHeaderAt(Model(), pos, ParseId(Some(id)).value.first)
      requires b == AlphaIndex(ParseId(Some(id)).value.second)
      requires 0 <= b < Alpha && k < |Model()[pos].buckets[b]| && k == Position(Model()[pos].buckets[b], id)
      modifies this, headers[pos].ppItems
      ensures Valid() && Repr == old(Repr)
      ensures Step(Pass, Model()) == Removal(old(Model()), Some(id))
    {
      ghost var m0 := Model();
      UnlinkAndTidy(pos, b, k);
      RemovalAt(m0, id, pos, b, k);
      RemovalKeepsWellFormed(m0, Some(id));
    }

    /** `operator-=`: unlinks the record with exactly this id, and then its
        header if all of the header's slots are empty. */
    method Remove(id: Option<CStr>) returns (res: Outcome<Error>)
      requires Valid()
      modifies Repr
      ensures Valid() && Repr == old(Repr)
      ensures Step(res, Model()) == Removal(old(Model()), id)
    {
      ghost var m0 := Model();
      var ini := ParseId(id);
      if ini.None? {
        return Fail(MalformedId);
      }
      var pos, previous, header := FindHeader(ini.value.first);
      assert Model() == m0;
      if header == null {
        return Fail(NotFound);
      }
      var b := AlphaIndex(ini.value.second);
      if b < 0 {
        return Fail(NotFound);
      }
      var list := header.ppItems[b];
      var k := Locate(list, id.value);
      assert Model() == m0;
      if k == |list| {
        return Fail(NotFound);
      }
      RemoveFound(id.value, pos, b, k);
      return Pass;
    }

    /** The copy constructor: a deep copy, header by header, slot by slot,
        each list copied in order; the copy shares no node with the
        original. */
    constructor Copy(original: DataStructure)
      requires original.Valid()
      ensures Valid() && fresh(Repr) && Model() == original.Model()
      ensures forall h :: h in headers ==> fresh(h)
      ensures Equivalent(Model(), original.Model())
    {
      headers := [];
      Repr := {this};
      new;
      ghost var m := original.Model();
      var copy := CopyHeaders(original.headers);
      Install(copy);
      assert Model() == View(copy) == m;
      EquivalentIffSameRecords(m, m);
    }

    /** `operator=`: nothing happens on self-assignment; otherwise the old
        contents are dropped and this becomes a deep copy of `right`. */
    method Assign(right: DataStructure)
      requires Valid() && right.Valid()
      modifies this
      ensures Valid() && Model() == old(right.Model())
      ensures this == right ==> headers == old(headers) && Repr == old(Repr)
      ensures this != right ==> fresh(Repr - {this}) && forall h :: h in headers ==> fresh(h)
    {
      if this == right {
        return;
      }
      var copy := CopyHeaders(right.headers);
      Install(copy);
    }

    /** Makes `hs`, header nodes no other structure uses, the header list. */
    method Install(hs: seq<HeaderNode>)
      requires forall i :: 0 <= i < |hs| ==> hs[i].ppItems.Length == Alpha
      requires forall i, j :: 0 <= i < j < |hs| ==> hs[i].ppItems != hs[j].ppItems
      requires WellFormed(View(hs))
      modifies this
      ensures Valid() && headers == hs && Repr == {this} + set h | h in hs :: h.ppItems
    {
      headers := hs;
      Repr := {this} + set h | h in hs :: h.ppItems;
    }

    /** `operator==`: the counts must agree, and every record, walked
        header by header, must be found in `other` by `GetItem` with the
        same `Code`, the same `TIME` presence and the same `TIME` fields. */
    method Equals(other: DataStructure) returns (eq: bool)
      requires Valid() && other.Valid()
      ensures eq == Equivalent(Model(), other.Model())
    {
      ghost var m, o := Model(), other.Model();
      var n := GetItemsNumber();
      var n' := other.GetItemsNumber();
      if n != n' {
        EquivalentBySize(m, o);
        return false;
      }
      eq := MatchAll(other);
      EquivalentByMembers(m, o);
    }

    /** The walk of `operator==` over this structure: is every record
        matched in `other`? */
    method MatchAll(other: DataStructure) returns (ok: bool)
      requires Valid() && other.Valid()
      ensures ok <==> forall r :: r in Traversal(Model()) ==> Matches(r, Lookup(other.Model(), Some(r.id)))
    {
      ghost var m, o := Model(), other.Model();
      var i := 0;
      while i < |headers|
        invariant i <= |headers|
        invariant forall r :: r in Traversal(m[..i]) ==> Matches(r, Lookup(o, Some(r.id)))
      {
        ok := other.MatchHeader(headers[i]);
        assert Concat(headers[i].ppItems[..]) == Concat(m[i].buckets);
        if !ok {
          UnmatchedAt(m, o, i);
          return;
        }
        MatchedStep(m, o, i);
        i := i + 1;
      }
      assert m[..i] == m;
      return true;
    }

    /** The two inner loops of `operator==` over one header of the left
        operand: is every record of its 26 lists matched here? */
    method MatchHeader(h: HeaderNode) returns (ok: bool)
      requires Valid() && h.ppItems.Length == Alpha
      ensures ok <==> forall r :: r in Concat(h.ppItems[..]) ==> Matches(r, Lookup(Model(), Some(r.id)))
    {
      ghost var bs := h.ppItems[..];
      var b := 0;
      while b < Alpha
        invariant b <= Alpha
        invariant forall r :: r in Concat(bs[..b]) ==> Matches(r, Lookup(Model(), Some(r.id)))
      {
        ok := MatchList(h.ppItems[b]);
        if !ok {
          ConcatSplit(bs, b);
          return;
        }
        ConcatPrefixStep(bs, b);
        b := b + 1;
      }
      assert bs[..b] == bs;
      return true;
    }

    /** The innermost loop of `operator==`: each record of one list looked
        up here with `GetItem` and compared field by field. */
    method MatchList(list: seq<Record>) returns (ok: bool)
      requires Valid()
      ensures ok <==> forall r :: r in list ==> Matches(r, Lookup(Model(), Some(r.id)))
    {
      ghost var m := Model();
      var k := 0;
      while k < |list|
        invariant k <= |list|
        invariant forall j :: 0 <= j < k ==> Matches(list[j], Lookup(m, Some(list[j].id)))
      {
        var found := GetItem(Some(list[k].id));
        ok := Agrees(list[k], found);
        if !ok {
          return;
        }
        k := k + 1;
      }
      return true;
    }

    /** `Write`: an empty structure is refused; otherwise the file header
        with the count `GetItemsNumber` gives, then every record as the walk
        meets it. */
    method Write() returns (res: Result<seq<byte>, Error>)
      requires Valid()
      ensures res == Encode(Model())
    {
      ghost var m := Model();
      var total := GetItemsNumber();
      if total == 0 {
        return Err(EmptyStructure);
      }
      var out := FileHeader(total);
      var i := 0;
      while i < |headers|
        invariant i <= |headers|
        invariant out == FileHeader(total) + EncodeItems(Traversal(m[..i]))
      {
        out := EmitHeader(out, headers[i]);
        EmitMore(FileHeader(total), Traversal(m[..i]), Concat(m[i].buckets));
        TraversalPrefixStep(m, i);
        i := i + 1;
      }
      assert m[..i] == m;
      return Ok(out);
    }

    /** One turn of the reader's loop: the next record is parsed and added
        with `operator+=`; a refusal by either is returned. */
    method LoadNext(s: seq<byte>, ghost left: nat) returns (status: Outcome<Error>, used: nat)
      requires Valid() && left > 0
      modifies Repr
      ensures Valid() && fresh(Repr - old(Repr))
      ensures status.Fail? ==> DecodeItems(left, s, old(Model())) == Err(status.error)
      ensures status.Pass? ==>
        used <= |s| && DecodeItems(left, s, old(Model())) == DecodeItems(left - 1, s[used..], Model())
    {
      ghost var m := Model();
      var item := DecodeItem(s);
      DecodeItemsNext(left, s, m);
      if item.Err? {
        return Fail(item.error), 0;
      }
      status := Insert(item.value.record);
      used := item.value.used;
    }

    /** The file-reading constructor: the file header is checked, then
        `count` records are read into a new structure one by one, each added
        with `operator+=`; the first refusal ends the reading. */
    static method Read(data: seq<byte>) returns (ds: DataStructure, res: Outcome<Error>)
      ensures ds.Valid() && fresh(ds) && fresh(ds.Repr)
      ensures Decode(data).Ok? ==> res == Pass && ds.Model() == Decode(data).value
      ensures Decode(data).Err? ==> res == Fail(Decode(data).error)
    {
      ds := new DataStructure();
      if |data| < FileHeaderSize || ReadU32(data) != Magic || ReadU32(data[4..]) != Version {
        return ds, Fail(BadHeader);
      }
      var count := ReadU32(data[8..]);
      var rest := data[FileHeaderSize..];
      var n := 0;
      ghost var left: nat := count;
      ghost var whole := DecodeItems(left, rest, []);
      assert whole == Decode(data);
      while n < count
        invariant n <= count && left == count - n
        invariant ds.Valid() && fresh(ds) && fresh(ds.Repr)
        invariant whole == DecodeItems(left, rest, ds.Model())
      {
        var status, used := ds.LoadNext(rest, left);
        if status.Fail? {
          return ds, status;
        }
        rest := rest[used..];
        left := left - 1;
        n := n + 1;
      }
      return ds, Pass;
    }
  }
}
