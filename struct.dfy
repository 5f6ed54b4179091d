/** The two-level index as a value: the headers in list order, each with its
    first initial `cBegin` and its 26 buckets, each bucket the list of records
    from its head. The heap-based structure in module Store is proved to
    behave as the functions here say. */
module Struct {
  import opened Wrappers
  import opened Bytes
  import opened Ids

  /** Number of buckets per header, one per second initial A..Z. */
  const Alpha := 26

  /** `TIME`: three 4-byte fields. */
  datatype Time = Time(hour: u32, min: u32, sec: u32)

  /** `ITEM2` without its `pNext` link. */
  datatype Record = Record(id: CStr, code: u32, time: Option<Time>)

  /** `HEADER_C` without its `pNext` link: `ppItems[b]` is `buckets[b]`. */
  datatype Header = Header(cBegin: byte, buckets: seq<seq<Record>>)

  /** The header list of `pStruct2`, from its head. */
  type Index = seq<Header>

  /** The failures the operations report (each a `std::runtime_error` in the
      C++ code). */
  datatype Error =
    | MalformedId     // parseID: null, no space, space first, nothing after the space
    | DuplicateId     // operator+=: the id is already stored
    | NotALetter      // operator+=: the second initial is not a letter
    | NotFound        // operator-=: no record with that id
    | BadHeader       // reader: short file header, wrong magic or version
    | BadIdLength     // reader: idLength missing or zero
    | CorruptItem     // reader: a record body cut short
    | EmptyStructure  // Write: nothing to write

  /** The result of an operation that changes the index: how it ended and the
      index it left behind (an exception does not undo earlier changes). */
  datatype Step = Step(outcome: Outcome<Error>, index: Index)

  /** `makeHeader`: a header whose 26 buckets are empty. */
  function EmptyHeader(c: byte): (h: Header)
    ensures h.cBegin == c && |h.buckets| == Alpha
    ensures forall b :: 0 <= b < Alpha ==> h.buckets[b] == []
  {
    Header(c, seq(Alpha, _ => []))
  }

  /** Every header has its 26 bucket slots. */
  predicate Shaped(hs: Index)
  {
    forall i :: 0 <= i < |hs| ==> |hs[i].buckets| == Alpha
  }

  // ---------------------------------------------------------------------
  // The invariant of the structure

  /** Headers strictly ascending by `cBegin` compared as `char`. */
  predicate Ascending(hs: Index)
  {
    forall i, j :: 0 <= i < j < |hs| ==> CharCode(hs[i].cBegin) < CharCode(hs[j].cBegin)
  }

  /** Record `r` belongs in header `c`, bucket `b`. */
  predicate Placed(r: Record, c: byte, b: int)
  {
    var p := ParseId(Some(r.id));
    p.Some? && p.value.first == c && AlphaIndex(p.value.second) == b
  }

  predicate DistinctIds(rs: seq<Record>)
  {
    forall p, q :: 0 <= p < q < |rs| ==> rs[p].id != rs[q].id
  }

  predicate BucketOk(list: seq<Record>, c: byte, b: int)
  {
    DistinctIds(list) && forall k :: 0 <= k < |list| ==> Placed(list[k], c, b)
  }

  predicate HeaderOk(h: Header)
  {
    |h.buckets| == Alpha && forall b :: 0 <= b < Alpha ==> BucketOk(h.buckets[b], h.cBegin, b)
  }

  /** What every operation keeps: ordered headers, and each record in the
      bucket its id selects, with no id twice in a bucket. (No two records
      anywhere share an id, and no two headers a `cBegin`: lemmas below.)
      A header with all buckets empty is allowed: a failed insert can leave
      one behind. */
  predicate WellFormed(hs: Index)
  {
    Ascending(hs) && forall i :: 0 <= i < |hs| ==> HeaderOk(hs[i])
  }

  // ---------------------------------------------------------------------
  // Traversal order: headers in order, buckets 0..25, each list from its head

  function Concat(bs: seq<seq<Record>>): seq<Record>
  {
    if bs == [] then [] else Concat(bs[..|bs| - 1]) + bs[|bs| - 1]
  }

  function Traversal(hs: Index): seq<Record>
  {
    if hs == [] then [] else Traversal(hs[..|hs| - 1]) + Concat(hs[|hs| - 1].buckets)
  }

  /** The number of records (what `GetItemsNumber` counts). */
  function Size(hs: Index): nat
  {
    |Traversal(hs)|
  }

  function RecordSet(hs: Index): set<Record>
  {
    set r | r in Traversal(hs)
  }

  predicate HasId(hs: Index, id: CStr)
  {
    exists r :: r in Traversal(hs) && r.id == id
  }

  predicate HasHeader(hs: Index, c: byte)
  {
    exists j :: 0 <= j < |hs| && hs[j].cBegin == c
  }

  lemma {:induction false} ConcatAppend(a: seq<seq<Record>>, b: seq<seq<Record>>)
    ensures Concat(a + b) == Concat(a) + Concat(b)
  {
    if b != [] {
      var n := |b| - 1;
      assert (a + b)[..|a + b| - 1] == a + b[..n];
      ConcatAppend(a, b[..n]);
    } else {
      assert a + b == a;
    }
  }

  lemma {:induction false} TraversalAppend(a: Index, b: Index)
    ensures Traversal(a + b) == Traversal(a) + Traversal(b)
  {
    if b != [] {
      var n := |b| - 1;
      assert (a + b)[..|a + b| - 1] == a + b[..n];
      TraversalAppend(a, b[..n]);
    } else {
      assert a + b == a;
    }
  }

  lemma TraversalSingle(h: Header)
    ensures Traversal([h]) == Concat(h.buckets)
  {
    assert [h][..0] == [];
  }

  lemma ConcatSingle(l: seq<Record>)
    ensures Concat([l]) == l
  {
    assert [l][..0] == [];
  }

  lemma SplitAround<T>(s: seq<T>, i: nat)
    requires i < |s|
    ensures s == s[..i] + [s[i]] + s[i + 1..]
  {
  }

  lemma TraversalThree(p: Index, h: Header, q: Index)
    ensures Traversal(p + [h] + q) == Traversal(p) + Concat(h.buckets) + Traversal(q)
  {
    TraversalAppend(p + [h], q);
    TraversalAppend(p, [h]);
    TraversalSingle(h);
  }

  lemma ConcatThree(p: seq<seq<Record>>, l: seq<Record>, q: seq<seq<Record>>)
    ensures Concat(p + [l] + q) == Concat(p) + l + Concat(q)
  {
    ConcatAppend(p + [l], q);
    ConcatAppend(p, [l]);
    ConcatSingle(l);
  }

  /** The traversal around header `i`. */
  lemma TraversalSplit(hs: Index, i: nat)
    requires i < |hs|
    ensures Traversal(hs) == Traversal(hs[..i]) + Concat(hs[i].buckets) + Traversal(hs[i + 1..])
  {
    SplitAround(hs, i);
    TraversalThree(hs[..i], hs[i], hs[i + 1..]);
  }

  /** The concatenation around bucket `b`. */
  lemma ConcatSplit(bs: seq<seq<Record>>, b: nat)
    requires b < |bs|
    ensures Concat(bs) == Concat(bs[..b]) + bs[b] + Concat(bs[b + 1..])
  {
    SplitAround(bs, b);
    ConcatThree(bs[..b], bs[b], bs[b + 1..]);
  }

  lemma {:induction false} InConcat(bs: seq<seq<Record>>, r: Record)
    ensures r in Concat(bs) <==> exists b :: 0 <= b < |bs| && r in bs[b]
  {
    if bs != [] {
      var n := |bs| - 1;
      InConcat(bs[..n], r);
      assert forall b :: 0 <= b < n ==> bs[..n][b] == bs[b];
    }
  }

  lemma {:induction false} InTraversal(hs: Index, r: Record)
    ensures r in Traversal(hs) <==>
      exists i, b :: 0 <= i < |hs| && 0 <= b < |hs[i].buckets| && r in hs[i].buckets[b]
  {
    if hs != [] {
      var n := |hs| - 1;
      InTraversal(hs[..n], r);
      InConcat(hs[n].buckets, r);
      assert forall i :: 0 <= i < n ==> hs[..n][i] == hs[i];
    }
  }

  // ---------------------------------------------------------------------
  // Searching

  /** `findHeader`'s walk: the position of the first header whose `cBegin`
      is not below `c` (|hs| if none); its predecessor is `previousHeader`. */
  function FindPos(hs: Index, c: byte): (k: nat)
    ensures k <= |hs|
    ensures forall j :: 0 <= j < k ==> CharCode(hs[j].cBegin) < CharCode(c)
    ensures k < |hs| ==> CharCode(hs[k].cBegin) >= CharCode(c)
  {
    if hs == [] || CharCode(hs[0].cBegin) >= CharCode(c) then 0
    else 1 + FindPos(hs[1..], c)
  }

  /** `findHeader` returns the header at `k` (not null). */
  predicate HasHeaderAt(hs: Index, k: nat, c: byte)
  {
    k < |hs| && hs[k].cBegin == c
  }

  /** The position of the first record with this id in a bucket list, or
      its length when there is none. */
  function Position(list: seq<Record>, id: CStr): (k: nat)
    ensures k <= |list|
    ensures forall j :: 0 <= j < k ==> list[j].id != id
    ensures k < |list| ==> list[k].id == id
  {
    if list == [] || list[0].id == id then 0 else 1 + Position(list[1..], id)
  }

  /** The linear scan of a bucket for an exact (`strcmp`) match. */
  function FindIn(list: seq<Record>, id: CStr): Option<Record>
  {
    var k := Position(list, id);
    if k < |list| then Some(list[k]) else None
  }

  /** `GetItem`: a null or malformed id, a missing header, a second initial
      that is not a letter and a bucket without the id all give None. */
  function Lookup(hs: Index, id: Option<CStr>): (r: Option<Record>)
    requires Shaped(hs)
    ensures r.Some? ==> id.Some? && r.value.id == id.value
    ensures r.Some? ==> ValidId(id.value) && HasHeader(hs, id.value[0])
  {
    match ParseId(id)
    case None => None
    case Some(ini) =>
      var i := FindPos(hs, ini.first);
      if !HasHeaderAt(hs, i, ini.first) then None
      else
        var b := AlphaIndex(ini.second);
        if b < 0 then None else FindIn(hs[i].buckets[b], id.value)
  }

  /** The bucket `b` of the header for `c`, or [] when there is no such
      header. */
  function Bucket(hs: Index, c: byte, b: nat): seq<Record>
    requires Shaped(hs) && b < Alpha
  {
    var i := FindPos(hs, c);
    if HasHeaderAt(hs, i, c) then hs[i].buckets[b] else []
  }

  // ---------------------------------------------------------------------
  // Facts about the invariant

  /** With ascending headers `findHeader` finds a header exactly when there
      is one for `c`; and there is at most one. */
  lemma FindPosExact(hs: Index, c: byte)
    requires Ascending(hs)
    ensures HasHeaderAt(hs, FindPos(hs, c), c) <==> HasHeader(hs, c)
    ensures forall j :: 0 <= j < |hs| && hs[j].cBegin == c ==> j == FindPos(hs, c)
  {
  }

  /** Where a record of a well-formed index sits is determined by its id. */
  lemma PlacedUnique(r: Record, q: Record, c: byte, b: int, c': byte, b': int)
    requires Placed(r, c, b) && Placed(q, c', b') && r.id == q.id
    ensures c == c' && b == b'
  {
  }

  /** A stored record's first initial is its header's `cBegin`. */
  lemma PlacedFirst(r: Record, c: byte, b: int)
    requires Placed(r, c, b)
    ensures |r.id| > 0 && r.id[0] == c
  {
  }

  /** Records of a well-formed index: each is in a header whose `cBegin` and
      bucket its id selects. */
  lemma StoredPlaced(hs: Index, r: Record)
    requires WellFormed(hs) && r in Traversal(hs)
    ensures exists i, b :: 0 <= i < |hs| && 0 <= b < Alpha && r in hs[i].buckets[b]
                           && Placed(r, hs[i].cBegin, b)
  {
    InTraversal(hs, r);
    var i, b :| 0 <= i < |hs| && 0 <= b < |hs[i].buckets| && r in hs[i].buckets[b];
    assert HeaderOk(hs[i]);
    assert BucketOk(hs[i].buckets[b], hs[i].cBegin, b);
  }

  /** `GetItem` on a well-formed index finds a record exactly when it is
      stored, and then the one with that id. */
  lemma LookupExact(hs: Index, id: CStr, r: Record)
    requires WellFormed(hs)
    ensures Lookup(hs, Some(id)) == Some(r) <==> r in Traversal(hs) && r.id == id
  {
    if Lookup(hs, Some(id)) == Some(r) {
      LookupSound(hs, id, r);
    }
    if r in Traversal(hs) && r.id == id {
      LookupComplete(hs, id, r);
    }
  }

  lemma LookupSound(hs: Index, id: CStr, r: Record)
    requires Shaped(hs) && Lookup(hs, Some(id)) == Some(r)
    ensures r in Traversal(hs) && r.id == id
  {
    var ini := ParseId(Some(id)).value;
    var i := FindPos(hs, ini.first);
    var b := AlphaIndex(ini.second);
    var list := hs[i].buckets[b];
    assert r == list[Position(list, id)];
    InTraversal(hs, r);
  }

  lemma LookupComplete(hs: Index, id: CStr, r: Record)
    requires WellFormed(hs) && r in Traversal(hs) && r.id == id
    ensures Lookup(hs, Some(id)) == Some(r)
  {
    StoredPlaced(hs, r);
    var i, b :| 0 <= i < |hs| && 0 <= b < Alpha && r in hs[i].buckets[b] && Placed(r, hs[i].cBegin, b);
    FindPosExact(hs, hs[i].cBegin);
    var list := hs[i].buckets[b];
    assert HeaderOk(hs[i]);
    assert BucketOk(list, hs[i].cBegin, b);
    var k :| 0 <= k < |list| && list[k] == r;
    assert Position(list, id) == k;
  }

  /** `GetItem` finds nothing exactly when no stored record has the id. */
  lemma LookupMissing(hs: Index, id: CStr)
    requires WellFormed(hs)
    ensures Lookup(hs, Some(id)).None? <==> !HasId(hs, id)
  {
    if Lookup(hs, Some(id)).Some? {
      LookupExact(hs, id, Lookup(hs, Some(id)).value);
    }
    if HasId(hs, id) {
      var r :| r in Traversal(hs) && r.id == id;
      LookupExact(hs, id, r);
    }
  }

  /** No two records of a well-formed index share an id. */
  lemma {:induction false} TraversalDistinct(hs: Index)
    requires WellFormed(hs)
    ensures DistinctIds(Traversal(hs))
  {
    if hs != [] {
      var n := |hs| - 1;
      var init := hs[..n];
      assert WellFormed(init);
      TraversalDistinct(init);
      ConcatDistinct(hs[n].buckets, hs[n].cBegin);
      forall x, y | x in Traversal(init) && y in Concat(hs[n].buckets)
        ensures x.id != y.id
      {
        StoredPlaced(init, x);
        var j, bx :| 0 <= j < n && 0 <= bx < Alpha && x in init[j].buckets[bx] && Placed(x, init[j].cBegin, bx);
        InConcat(hs[n].buckets, y);
        var yb :| 0 <= yb < |hs[n].buckets| && y in hs[n].buckets[yb];
        assert HeaderOk(hs[n]) && BucketOk(hs[n].buckets[yb], hs[n].cBegin, yb);
        assert Placed(y, hs[n].cBegin, yb);
        PlacedFirst(x, init[j].cBegin, bx);
        PlacedFirst(y, hs[n].cBegin, yb);
        assert init[j] == hs[j];
      }
      DistinctAppend(Traversal(init), Concat(hs[n].buckets));
    }
  }

  lemma {:induction false} ConcatDistinct(bs: seq<seq<Record>>, c: byte)
    requires forall b :: 0 <= b < |bs| ==> BucketOk(bs[b], c, b)
    ensures DistinctIds(Concat(bs))
  {
    if bs != [] {
      var n := |bs| - 1;
      assert forall b :: 0 <= b < n ==> bs[..n][b] == bs[b];
      ConcatDistinct(bs[..n], c);
      forall x, y | x in Concat(bs[..n]) && y in bs[n]
        ensures x.id != y.id
      {
        InConcat(bs[..n], x);
        var bx :| 0 <= bx < n && x in bs[..n][bx];
        assert BucketOk(bs[bx], c, bx);
        if x.id == y.id {
          PlacedUnique(x, y, c, bx, c, n);
        }
      }
      DistinctAppend(Concat(bs[..n]), bs[n]);
    }
  }

  lemma DistinctAppend(a: seq<Record>, b: seq<Record>)
    requires DistinctIds(a) && DistinctIds(b)
    requires forall x, y :: x in a && y in b ==> x.id != y.id
    ensures DistinctIds(a + b)
  {
    forall p, q | 0 <= p < q < |a + b|
      ensures (a + b)[p].id != (a + b)[q].id
    {
      if p < |a| && q >= |a| {
        assert (a + b)[p] in a && (a + b)[q] in b;
      }
    }
  }

  /** A list of records with distinct ids has as many elements as records. */
  lemma {:induction false} DistinctCard(s: seq<Record>)
    requires DistinctIds(s)
    ensures |set r | r in s| == |s|
  {
    if s != [] {
      var n := |s| - 1;
      assert DistinctIds(s[..n]);
      DistinctCard(s[..n]);
      assert (set r | r in s) == (set r | r in s[..n]) + {s[n]};
      assert s[n] !in (set r | r in s[..n]);
    }
  }

  lemma ConcatAllEmpty(bs: seq<seq<Record>>)
    requires forall b :: 0 <= b < |bs| ==> bs[b] == []
    ensures Concat(bs) == []
  {
    if bs != [] {
      ConcatAllEmpty(bs[..|bs| - 1]);
    }
  }

  // ---------------------------------------------------------------------
  // Insertion: operator+=

  /** `findHeader` and, when no header for `c` exists, `makeHeader` linked
      in by `insertHeaderSorted` after `previousHeader`. */
  function WithHeader(hs: Index, c: byte): (r: Index)
    requires Shaped(hs)
    ensures Shaped(r) && HasHeaderAt(r, FindPos(hs, c), c)
  {
    var i := FindPos(hs, c);
    if HasHeaderAt(hs, i, c) then hs else hs[..i] + [EmptyHeader(c)] + hs[i..]
  }

  /** Head insertion into bucket `b`. */
  function Prepend(h: Header, b: nat, r: Record): (g: Header)
    requires b < |h.buckets|
    ensures g.cBegin == h.cBegin && |g.buckets| == |h.buckets|
    ensures g.buckets[b] == [r] + h.buckets[b]
    ensures forall i :: 0 <= i < |h.buckets| && i != b ==> g.buckets[i] == h.buckets[i]
  {
    h.(buckets := h.buckets[b := [r] + h.buckets[b]])
  }

  /** `operator+=`. Note the order of the steps: the duplicate check comes
      before any change, but the header for the first initial is created
      and linked in before the second initial is checked, so a
      second initial that is not a letter fails with that header left in
      place. */
  function Insertion(hs: Index, r: Record): (res: Step)
    requires Shaped(hs)
    ensures Shaped(res.index)
  {
    match ParseId(Some(r.id))
    case None => Step(Fail(MalformedId), hs)
    case Some(ini) =>
      if Lookup(hs, Some(r.id)).Some? then Step(Fail(DuplicateId), hs)
      else
        var i := FindPos(hs, ini.first);
        var withHeader := WithHeader(hs, ini.first);
        var b := AlphaIndex(ini.second);
        if b < 0 then Step(Fail(NotALetter), withHeader)
        else Step(Pass, withHeader[i := Prepend(withHeader[i], b, r)])
  }

  /** An id `operator+=` accepts when it is not stored yet. */
  predicate ValidId(id: CStr)
  {
    var p := ParseId(Some(id));
    p.Some? && AlphaIndex(p.value.second) >= 0
  }

  /** Every stored record has an id `operator+=` accepts. */
  lemma StoredIdValid(hs: Index, r: Record)
    requires WellFormed(hs) && r in Traversal(hs)
    ensures ValidId(r.id)
  {
    StoredPlaced(hs, r);
  }

  /** `insertHeaderSorted` at the position `findHeader` reports keeps the
      headers strictly ascending, with a single header for `c`. */
  lemma InsertHeaderSortedKeepsOrder(hs: Index, c: byte)
    requires Ascending(hs) && !HasHeader(hs, c)
    ensures Ascending(hs[..FindPos(hs, c)] + [EmptyHeader(c)] + hs[FindPos(hs, c)..])
  {
    var i := FindPos(hs, c);
    var w := hs[..i] + [EmptyHeader(c)] + hs[i..];
    if i < |hs| {
      CharCodeAbove(hs[i].cBegin, c);
    }
    forall p, q | 0 <= p < q < |w|
      ensures CharCode(w[p].cBegin) < CharCode(w[q].cBegin)
    {
      if q < i {
        assert w[p] == hs[p] && w[q] == hs[q];
      } else if q == i {
        assert w[p] == hs[p];
      } else if p < i {
        assert w[p] == hs[p] && w[q] == hs[q - 1];
      } else if p == i {
        assert w[q] == hs[q - 1];
      } else {
        assert w[p] == hs[p - 1] && w[q] == hs[q - 1];
      }
    }
  }

  /** Two different bytes have different `char` values. */
  lemma CharCodeAbove(x: byte, c: byte)
    requires x != c && CharCode(x) >= CharCode(c)
    ensures CharCode(x) > CharCode(c)
  {
  }

  lemma InsertedHeaderWellFormed(hs: Index, c: byte)
    requires WellFormed(hs) && !HasHeader(hs, c)
    ensures WellFormed(hs[..FindPos(hs, c)] + [EmptyHeader(c)] + hs[FindPos(hs, c)..])
  {
    var i := FindPos(hs, c);
    var w := hs[..i] + [EmptyHeader(c)] + hs[i..];
    InsertHeaderSortedKeepsOrder(hs, c);
    forall j | 0 <= j < |w|
      ensures HeaderOk(w[j])
    {
      if j < i {
        assert w[j] == hs[j];
      } else if j > i {
        assert w[j] == hs[j - 1];
      }
    }
  }

  /** A header without records adds nothing to the traversal. */
  lemma EmptyHeaderTraversal(pre: Index, h: Header)
    requires forall b :: 0 <= b < |h.buckets| ==> h.buckets[b] == []
    ensures Traversal(pre + [h]) == Traversal(pre)
  {
    TraversalAppend(pre, [h]);
    TraversalSingle(h);
    ConcatAllEmpty(h.buckets);
  }

  lemma InsertedHeaderTraversal(hs: Index, i: nat, h: Header)
    requires i <= |hs| && forall b :: 0 <= b < |h.buckets| ==> h.buckets[b] == []
    ensures Traversal(hs[..i] + [h] + hs[i..]) == Traversal(hs)
  {
    assert hs == hs[..i] + hs[i..];
    SplicedTraversal(hs[..i], h, hs[i..]);
  }

  lemma SplicedTraversal(pre: Index, h: Header, post: Index)
    requires forall b :: 0 <= b < |h.buckets| ==> h.buckets[b] == []
    ensures Traversal(pre + [h] + post) == Traversal(pre + post)
  {
    TraversalAppend(pre + [h], post);
    EmptyHeaderTraversal(pre, h);
    TraversalAppend(pre, post);
  }

  /** Making sure a header for `c` exists keeps the invariant and the
      records, and at most adds one empty header. */
  lemma WithHeaderFacts(hs: Index, c: byte)
    requires WellFormed(hs)
    ensures WellFormed(WithHeader(hs, c))
    ensures Traversal(WithHeader(hs, c)) == Traversal(hs)
    ensures FindPos(WithHeader(hs, c), c) == FindPos(hs, c)
    ensures HasHeader(hs, c) ==> WithHeader(hs, c) == hs
    ensures !HasHeader(hs, c) ==>
      WithHeader(hs, c) == hs[..FindPos(hs, c)] + [EmptyHeader(c)] + hs[FindPos(hs, c)..]
  {
    var i := FindPos(hs, c);
    FindPosExact(hs, c);
    if !HasHeader(hs, c) {
      var w := hs[..i] + [EmptyHeader(c)] + hs[i..];
      InsertedHeaderWellFormed(hs, c);
      InsertedHeaderTraversal(hs, i, EmptyHeader(c));
      FindPosExact(w, c);
      assert w[i].cBegin == c;
    }
  }

  /** The bucket index an accepted id selects. */
  function SecondBucket(id: CStr): (b: nat)
    requires ValidId(id)
    ensures b < Alpha
  {
    AlphaIndex(ParseId(Some(id)).value.second)
  }

  /** Two well-formed indexes holding the same records in the same order
      answer every `GetItem` alike. */
  lemma SameTraversalSameLookup(a: Index, b: Index)
    requires WellFormed(a) && WellFormed(b) && Traversal(a) == Traversal(b)
    ensures forall id :: Lookup(a, id) == Lookup(b, id)
  {
    forall id: Option<CStr>
      ensures Lookup(a, id) == Lookup(b, id)
    {
      if id.Some? {
        if Lookup(a, id).Some? {
          LookupExact(a, id.value, Lookup(a, id).value);
          LookupExact(b, id.value, Lookup(a, id).value);
        } else if Lookup(b, id).Some? {
          LookupExact(b, id.value, Lookup(b, id).value);
          LookupExact(a, id.value, Lookup(b, id).value);
        }
      }
    }
  }

  /** How `operator+=` ends: a malformed id, then a duplicate, then a second
      initial that is not a letter are rejected, in that order; everything
      else is stored. */
  lemma InsertionOutcome(hs: Index, r: Record)
    requires WellFormed(hs)
    ensures Insertion(hs, r).outcome == Fail(MalformedId) <==> ParseId(Some(r.id)).None?
    ensures Insertion(hs, r).outcome == Fail(DuplicateId) <==> HasId(hs, r.id)
    ensures Insertion(hs, r).outcome == Fail(NotALetter) <==>
      ParseId(Some(r.id)).Some? && !ValidId(r.id)
    ensures Insertion(hs, r).outcome == Pass <==> ValidId(r.id) && !HasId(hs, r.id)
  {
    LookupMissing(hs, r.id);
    if HasId(hs, r.id) {
      var q :| q in Traversal(hs) && q.id == r.id;
      StoredIdValid(hs, q);
    }
  }

  /** Replacing a header by a well-formed one with the same initial keeps
      the invariant. */
  lemma ReplaceHeaderKeepsWellFormed(w: Index, i: nat, h: Header)
    requires WellFormed(w) && i < |w| && HeaderOk(h) && h.cBegin == w[i].cBegin
    ensures WellFormed(w[i := h])
  {
  }

  lemma PrependedBucketOk(l: seq<Record>, c: byte, b: nat, r: Record)
    requires BucketOk(l, c, b) && Placed(r, c, b)
    requires forall q :: q in l ==> q.id != r.id
    ensures BucketOk([r] + l, c, b)
  {
    PrependedDistinct(l, r);
    PrependedPlaced(l, c, b, r);
  }

  lemma PrependedDistinct(l: seq<Record>, r: Record)
    requires DistinctIds(l) && forall q :: q in l ==> q.id != r.id
    ensures DistinctIds([r] + l)
  {
    var t := [r] + l;
    forall p, q | 0 <= p < q < |t|
      ensures t[p].id != t[q].id
    {
      assert t[q] == l[q - 1];
      if p > 0 {
        assert t[p] == l[p - 1];
      }
    }
  }

  lemma PrependedPlaced(l: seq<Record>, c: byte, b: nat, r: Record)
    requires Placed(r, c, b) && forall k :: 0 <= k < |l| ==> Placed(l[k], c, b)
    ensures forall k :: 0 <= k < |[r] + l| ==> Placed(([r] + l)[k], c, b)
  {
    var t := [r] + l;
    forall k | 0 <= k < |t|
      ensures Placed(t[k], c, b)
    {
      if k > 0 {
        assert t[k] == l[k - 1];
      }
    }
  }

  lemma PrependHeaderOk(h: Header, b: nat, r: Record)
    requires HeaderOk(h) && b < Alpha && Placed(r, h.cBegin, b)
    requires forall q :: q in h.buckets[b] ==> q.id != r.id
    ensures HeaderOk(Prepend(h, b, r))
  {
    var h' := Prepend(h, b, r);
    PrependedBucketOk(h.buckets[b], h.cBegin, b, r);
    forall b' | 0 <= b' < Alpha
      ensures BucketOk(h'.buckets[b'], h'.cBegin, b')
    {
      if b' != b {
        assert h'.buckets[b'] == h.buckets[b'];
      }
    }
  }

  lemma PrependKeepsWellFormed(w: Index, i: nat, b: nat, r: Record)
    requires WellFormed(w) && i < |w| && b < Alpha
    requires Placed(r, w[i].cBegin, b)
    requires forall q :: q in w[i].buckets[b] ==> q.id != r.id
    ensures WellFormed(w[i := Prepend(w[i], b, r)])
  {
    assert HeaderOk(w[i]);
    PrependHeaderOk(w[i], b, r);
    ReplaceHeaderKeepsWellFormed(w, i, Prepend(w[i], b, r));
  }

  lemma ReplaceHeaderTraversal(w: Index, i: nat, h: Header)
    requires i < |w|
    ensures Traversal(w[i := h]) == Traversal(w[..i]) + Concat(h.buckets) + Traversal(w[i + 1..])
  {
    var after := w[i := h];
    TraversalSplit(after, i);
    assert after[..i] == w[..i] && after[i + 1..] == w[i + 1..];
  }

  lemma ReplaceBucketConcat(bs: seq<seq<Record>>, b: nat, l: seq<Record>)
    requires b < |bs|
    ensures Concat(bs[b := l]) == Concat(bs[..b]) + l + Concat(bs[b + 1..])
  {
    var after := bs[b := l];
    ConcatSplit(after, b);
    assert after[..b] == bs[..b] && after[b + 1..] == bs[b + 1..];
  }

  lemma Regroup(p: seq<Record>, a: seq<Record>, m: seq<Record>, c: seq<Record>, s: seq<Record>)
    ensures p + (a + m + c) + s == (p + a) + m + (c + s)
  {
  }

  /** Changing one bucket of one header changes the traversal in that
      bucket's place only. */
  lemma UpdateBucketTraversal(w: Index, i: nat, b: nat, l: seq<Record>)
    requires i < |w| && b < |w[i].buckets|
    ensures var pre, post := Traversal(w[..i]) + Concat(w[i].buckets[..b]),
                            Concat(w[i].buckets[b + 1..]) + Traversal(w[i + 1..]);
      && Traversal(w) == pre + w[i].buckets[b] + post
      && Traversal(w[i := w[i].(buckets := w[i].buckets[b := l])]) == pre + l + post
  {
    var bs := w[i].buckets;
    var p, a, c, s := Traversal(w[..i]), Concat(bs[..b]), Concat(bs[b + 1..]), Traversal(w[i + 1..]);
    TraversalSplit(w, i);
    ConcatSplit(bs, b);
    assert Traversal(w) == p + (a + bs[b] + c) + s;
    Regroup(p, a, bs[b], c, s);
    ReplaceHeaderTraversal(w, i, w[i].(buckets := bs[b := l]));
    ReplaceBucketConcat(bs, b, l);
    assert Traversal(w[i := w[i].(buckets := bs[b := l])]) == p + (a + l + c) + s;
    Regroup(p, a, l, c, s);
  }

  lemma PrependTraversal(w: Index, i: nat, b: nat, r: Record)
    requires i < |w| && b < |w[i].buckets|
    ensures multiset(Traversal(w[i := Prepend(w[i], b, r)])) == multiset(Traversal(w)) + multiset{r}
  {
    UpdateBucketTraversal(w, i, b, [r] + w[i].buckets[b]);
    assert w[i := Prepend(w[i], b, r)] == w[i := w[i].(buckets := w[i].buckets[b := [r] + w[i].buckets[b]])];
  }

  /** `operator+=` keeps the invariant, whatever its outcome. */
  lemma InsertionKeepsWellFormed(hs: Index, r: Record)
    requires WellFormed(hs)
    ensures WellFormed(Insertion(hs, r).index)
  {
    match ParseId(Some(r.id))
    case None =>
    case Some(ini) =>
      if Lookup(hs, Some(r.id)).None? {
        var c := ini.first;
        var i := FindPos(hs, c);
        var w := WithHeader(hs, c);
        WithHeaderFacts(hs, c);
        var b := AlphaIndex(ini.second);
        if b >= 0 {
          LookupMissing(hs, r.id);
          forall q | q in w[i].buckets[b]
            ensures q.id != r.id
          {
            InTraversal(w, q);
          }
          PrependKeepsWellFormed(w, i, b, r);
        }
      }
  }

  /** A failed `operator+=` keeps every record where it was, so `GetItem`,
      `GetItemsNumber` and the written file are as before. A malformed or
      duplicate id changes nothing at all; a second initial that is not a
      letter may leave one new, empty header for the first initial. */
  lemma InsertionFailureKeepsRecords(hs: Index, r: Record)
    requires WellFormed(hs) && Insertion(hs, r).outcome.Fail?
    ensures Traversal(Insertion(hs, r).index) == Traversal(hs)
    ensures forall id :: Lookup(Insertion(hs, r).index, id) == Lookup(hs, id)
    ensures Insertion(hs, r).outcome != Fail(NotALetter) ==> Insertion(hs, r).index == hs
    ensures Insertion(hs, r).outcome == Fail(NotALetter) ==>
      var c := ParseId(Some(r.id)).value.first;
      || Insertion(hs, r).index == hs
      || (!HasHeader(hs, c) &&
          Insertion(hs, r).index == hs[..FindPos(hs, c)] + [EmptyHeader(c)] + hs[FindPos(hs, c)..])
  {
    InsertionKeepsWellFormed(hs, r);
    if Insertion(hs, r).outcome == Fail(NotALetter) {
      WithHeaderFacts(hs, ParseId(Some(r.id)).value.first);
    }
    SameTraversalSameLookup(Insertion(hs, r).index, hs);
  }

  /** A successful `operator+=` adds exactly the record, at the head of the
      bucket its id selects, and `GetItem` then finds it. */
  lemma InsertionAdds(hs: Index, r: Record)
    requires WellFormed(hs) && Insertion(hs, r).outcome == Pass
    ensures ValidId(r.id)
    ensures multiset(Traversal(Insertion(hs, r).index)) == multiset(Traversal(hs)) + multiset{r}
    ensures Size(Insertion(hs, r).index) == Size(hs) + 1
    ensures Lookup(Insertion(hs, r).index, Some(r.id)) == Some(r)
    ensures Bucket(Insertion(hs, r).index, r.id[0], SecondBucket(r.id))
         == [r] + Bucket(hs, r.id[0], SecondBucket(r.id))
  {
    InsertionOutcome(hs, r);
    InsertionAddsRecord(hs, r);
    var after := Insertion(hs, r).index;
    InsertionKeepsWellFormed(hs, r);
    assert r in multiset(Traversal(after));
    LookupComplete(after, r.id, r);
    InsertionAddsAtHead(hs, r);
  }

  lemma InsertionAddsRecord(hs: Index, r: Record)
    requires WellFormed(hs) && Insertion(hs, r).outcome == Pass
    ensures multiset(Traversal(Insertion(hs, r).index)) == multiset(Traversal(hs)) + multiset{r}
  {
    var ini := ParseId(Some(r.id)).value;
    var c, b := ini.first, AlphaIndex(ini.second);
    var i := FindPos(hs, c);
    var w := WithHeader(hs, c);
    WithHeaderFacts(hs, c);
    assert Insertion(hs, r).index == w[i := Prepend(w[i], b, r)];
    PrependTraversal(w, i, b, r);
  }

  lemma InsertionAddsAtHead(hs: Index, r: Record)
    requires WellFormed(hs) && Insertion(hs, r).outcome == Pass
    ensures ValidId(r.id)
    ensures Bucket(Insertion(hs, r).index, r.id[0], SecondBucket(r.id))
         == [r] + Bucket(hs, r.id[0], SecondBucket(r.id))
  {
    InsertionOutcome(hs, r);
    InsertionAt(hs, r);
    var ini := ParseId(Some(r.id)).value;
    var c, b := ini.first, AlphaIndex(ini.second);
    WithHeaderBucket(hs, c, b);
    PrependedBucket(hs, WithHeader(hs, c), FindPos(hs, c), c, b, r);
  }

  /** What a successful `operator+=` leaves: the header for the first
      initial, made if need be, with `r` at the head of the selected
      bucket. */
  lemma {:induction false} InsertionAt(hs: Index, r: Record)
    requires Shaped(hs) && Insertion(hs, r).outcome == Pass
    ensures ParseId(Some(r.id)).Some?
    ensures var ini := ParseId(Some(r.id)).value;
      var w, i := WithHeader(hs, ini.first), FindPos(hs, ini.first);
      Insertion(hs, r).index == w[i := Prepend(w[i], AlphaIndex(ini.second), r)]
  {
    var p := ParseId(Some(r.id));
    if p.Some? {
      var w, i := WithHeader(hs, p.value.first), FindPos(hs, p.value.first);
      assert Insertion(hs, r) == Step(Pass, w[i := Prepend(w[i], AlphaIndex(p.value.second), r)]);
    }
  }

  /** Head insertion into bucket `b` of the header for `c` puts `r` in
      front of what `Bucket` held there. */
  lemma PrependedBucket(hs: Index, w: Index, i: nat, c: byte, b: nat, r: Record)
    requires Shaped(hs) && Shaped(w) && b < Alpha && i < |w|
    requires i == FindPos(w, c) && w[i].cBegin == c && Bucket(hs, c, b) == w[i].buckets[b]
    ensures Bucket(w[i := Prepend(w[i], b, r)], c, b) == [r] + Bucket(hs, c, b)
  {
    FindPosSameKeys(w[i := Prepend(w[i], b, r)], w, c);
  }

  /** The header `WithHeader` provides sits where `findHeader` stops, and
      its buckets are those `Bucket` reports before. */
  lemma WithHeaderBucket(hs: Index, c: byte, b: nat)
    requires WellFormed(hs) && b < Alpha
    ensures var w, i := WithHeader(hs, c), FindPos(hs, c);
      i == FindPos(w, c) && i < |w| && w[i].cBegin == c && Bucket(hs, c, b) == w[i].buckets[b]
  {
    WithHeaderFacts(hs, c);
    FindPosExact(hs, c);
    if !HasHeader(hs, c) {
      assert WithHeader(hs, c)[FindPos(hs, c)] == EmptyHeader(c);
    }
  }

  /** `findHeader` looks only at the `cBegin` of each header. */
  lemma {:induction false} FindPosSameKeys(a: Index, b: Index, c: byte)
    requires |a| == |b| && forall j :: 0 <= j < |a| ==> a[j].cBegin == b[j].cBegin
    ensures FindPos(a, c) == FindPos(b, c)
  {
    if a != [] && CharCode(a[0].cBegin) < CharCode(c) {
      FindPosSameKeys(a[1..], b[1..], c);
    }
  }

  // ---------------------------------------------------------------------
  // Removal: operator-=

  predicate AllEmpty(bs: seq<seq<Record>>)
  {
    forall b :: 0 <= b < |bs| ==> bs[b] == []
  }

  /** `operator-=`: unlink the first record of the bucket with exactly this
      id; then, if all 26 buckets of its header are empty, unlink the
      header too. */
  function Removal(hs: Index, id: Option<CStr>): (res: Step)
    requires Shaped(hs)
    ensures Shaped(res.index)
  {
    match ParseId(id)
    case None => Step(Fail(MalformedId), hs)
    case Some(ini) =>
      var i := FindPos(hs, ini.first);
      if !HasHeaderAt(hs, i, ini.first) then Step(Fail(NotFound), hs)
      else
        var b := AlphaIndex(ini.second);
        if b < 0 then Step(Fail(NotFound), hs)
        else
          var list := hs[i].buckets[b];
          var k := Position(list, id.value);
          if k == |list| then Step(Fail(NotFound), hs)
          else
            var buckets := hs[i].buckets[b := list[..k] + list[k + 1..]];
            if AllEmpty(buckets) then Step(Pass, hs[..i] + hs[i + 1..])
            else Step(Pass, hs[i := Header(ini.first, buckets)])
  }

  /** How `operator-=` ends: a malformed id, an id that is not stored, or
      success; a failure changes nothing. */
  lemma RemovalOutcome(hs: Index, id: Option<CStr>)
    requires WellFormed(hs)
    ensures Removal(hs, id).outcome == Fail(MalformedId) <==> ParseId(id).None?
    ensures Removal(hs, id).outcome == Fail(NotFound) <==> ParseId(id).Some? && !HasId(hs, id.value)
    ensures Removal(hs, id).outcome == Pass <==> id.Some? && HasId(hs, id.value)
    ensures Removal(hs, id).outcome.Fail? ==> Removal(hs, id).index == hs
  {
    assert Removal(hs, id).outcome == Pass <==> Lookup(hs, id).Some?;
    if id.Some? {
      LookupMissing(hs, id.value);
      if HasId(hs, id.value) {
        var q :| q in Traversal(hs) && q.id == id.value;
        StoredIdValid(hs, q);
      }
    }
  }

  lemma RemovedBucketOk(l: seq<Record>, c: byte, b: int, k: nat)
    requires BucketOk(l, c, b) && k < |l|
    ensures BucketOk(l[..k] + l[k + 1..], c, b)
  {
    var l' := l[..k] + l[k + 1..];
    assert forall j :: 0 <= j < |l'| ==> l'[j] == if j < k then l[j] else l[j + 1];
  }

  lemma DropHeaderKeepsWellFormed(hs: Index, i: nat)
    requires WellFormed(hs) && i < |hs|
    ensures WellFormed(hs[..i] + hs[i + 1..])
  {
    var w := hs[..i] + hs[i + 1..];
    assert forall j :: 0 <= j < |w| ==> w[j] == if j < i then hs[j] else hs[j + 1];
  }

  /** `operator-=` keeps the invariant, whatever its outcome. */
  lemma RemovalKeepsWellFormed(hs: Index, id: Option<CStr>)
    requires WellFormed(hs)
    ensures WellFormed(Removal(hs, id).index)
  {
    match ParseId(id)
    case None =>
    case Some(ini) =>
      var i := FindPos(hs, ini.first);
      if HasHeaderAt(hs, i, ini.first) && AlphaIndex(ini.second) >= 0 {
        var b := AlphaIndex(ini.second);
        var list := hs[i].buckets[b];
        var k := Position(list, id.value);
        if k < |list| {
          var buckets := hs[i].buckets[b := list[..k] + list[k + 1..]];
          if AllEmpty(buckets) {
            DropHeaderKeepsWellFormed(hs, i);
          } else {
            assert HeaderOk(hs[i]);
            RemovedBucketOk(list, ini.first, b, k);
            var h := Header(ini.first, buckets);
            assert HeaderOk(h) by {
              forall b' | 0 <= b' < Alpha
                ensures BucketOk(h.buckets[b'], h.cBegin, b')
              {
                if b' != b {
                  assert h.buckets[b'] == hs[i].buckets[b'];
                }
              }
            }
            ReplaceHeaderKeepsWellFormed(hs, i, h);
          }
        }
      }
  }

  lemma DropEmptyHeaderTraversal(hs: Index, i: nat, h: Header)
    requires i < |hs| && Concat(h.buckets) == []
    ensures Traversal(hs[..i] + hs[i + 1..]) == Traversal(hs[i := h])
  {
    ReplaceHeaderTraversal(hs, i, h);
    TraversalAppend(hs[..i], hs[i + 1..]);
  }

  /** Taking element `k` out of the middle part of `pre + list + post`. */
  lemma SpliceOut(pre: seq<Record>, list: seq<Record>, k: nat, post: seq<Record>)
    requires k < |list|
    ensures var t, j := pre + list + post, |pre| + k;
      && j < |t| && t[j] == list[k]
      && pre + (list[..k] + list[k + 1..]) + post == t[..j] + t[j + 1..]
  {
    var t, j := pre + list + post, |pre| + k;
    assert list == list[..k] + [list[k]] + list[k + 1..];
    assert t == (pre + list[..k]) + [list[k]] + (list[k + 1..] + post);
    assert t[..j] == pre + list[..k];
    assert t[j + 1..] == list[k + 1..] + post;
  }

  /** A successful `operator-=` found the header, the bucket and the
      position of the record it unlinks. */
  lemma RemovalPosition(hs: Index, id: CStr)
    requires Shaped(hs) && Removal(hs, Some(id)).outcome == Pass
    ensures ParseId(Some(id)).Some?
    ensures var ini := ParseId(Some(id)).value;
      var i, b := FindPos(hs, ini.first), AlphaIndex(ini.second);
      && HasHeaderAt(hs, i, ini.first) && 0 <= b < Alpha
      && Position(hs[i].buckets[b], id) < |hs[i].buckets[b]|
  {
  }

  /** What `operator-=` leaves when the record is at position `k` of bucket
      `b` of the header at `i`. */
  lemma RemovalAt(hs: Index, id: CStr, i: nat, b: nat, k: nat)
    requires Shaped(hs) && ParseId(Some(id)).Some?
    requires i == FindPos(hs, ParseId(Some(id)).value.first)
    requires HasHeaderAt(hs, i, ParseId(Some(id)).value.first)
    requires b == AlphaIndex(ParseId(Some(id)).value.second)
    requires 0 <= b < Alpha && k < |hs[i].buckets[b]| && k == Position(hs[i].buckets[b], id)
    ensures var h := hs[i];
      var bs := h.buckets[b := h.buckets[b][..k] + h.buckets[b][k + 1..]];
      Removal(hs, Some(id)) == Step(Pass, if AllEmpty(bs) then hs[..i] + hs[i + 1..]
                                          else hs[i := Header(h.cBegin, bs)])
  {
  }

  /** Whether the emptied header is dropped or kept, the traversal is the
      one with the header replaced. */
  lemma RemovedHeaderTraversal(hs: Index, i: nat, h: Header, after: Index)
    requires i < |hs|
    requires AllEmpty(h.buckets) ==> after == hs[..i] + hs[i + 1..]
    requires !AllEmpty(h.buckets) ==> after == hs[i := h]
    ensures Traversal(after) == Traversal(hs[i := h])
  {
    if AllEmpty(h.buckets) {
      ConcatAllEmpty(h.buckets);
      DropEmptyHeaderTraversal(hs, i, h);
    }
  }

  /** The traversal after a successful `operator-=` is the one before with
      the removed record taken out of its place. */
  lemma RemovalTraversal(hs: Index, id: CStr)
    requires WellFormed(hs) && Removal(hs, Some(id)).outcome == Pass
    ensures exists j :: (0 <= j < |Traversal(hs)| && Traversal(hs)[j].id == id
      && Traversal(Removal(hs, Some(id)).index) == Traversal(hs)[..j] + Traversal(hs)[j + 1..])
  {
    RemovalPosition(hs, id);
    var ini := ParseId(Some(id)).value;
    var i, b := FindPos(hs, ini.first), AlphaIndex(ini.second);
    var list := hs[i].buckets[b];
    var k := Position(list, id);
    RemovalAt(hs, id, i, b, k);
    var l' := list[..k] + list[k + 1..];
    RemovedHeaderTraversal(hs, i, Header(ini.first, hs[i].buckets[b := l']), Removal(hs, Some(id)).index);
    UpdateBucketTraversal(hs, i, b, l');
    var pre, post := Traversal(hs[..i]) + Concat(hs[i].buckets[..b]),
                     Concat(hs[i].buckets[b + 1..]) + Traversal(hs[i + 1..]);
    SpliceOut(pre, list, k, post);
    assert Traversal(hs)[|pre| + k].id == id;
  }

  lemma DeleteAt(t: seq<Record>, j: nat)
    requires DistinctIds(t) && j < |t|
    ensures multiset(t[..j] + t[j + 1..]) == multiset(t) - multiset{t[j]}
    ensures forall q :: q in t[..j] + t[j + 1..] ==> q.id != t[j].id
  {
    assert t == t[..j] + [t[j]] + t[j + 1..];
    var rest := t[..j] + t[j + 1..];
    forall q | q in rest
      ensures q.id != t[j].id
    {
      var m :| 0 <= m < |rest| && rest[m] == q;
      if m < j {
        assert q == t[m];
      } else {
        assert q == t[m + 1];
      }
    }
  }

  /** A successful `operator-=` removes exactly the record `GetItem` found,
      after which `GetItem` finds nothing. */
  lemma RemovalDeletes(hs: Index, id: CStr)
    requires WellFormed(hs) && Removal(hs, Some(id)).outcome == Pass
    ensures ValidId(id) && Lookup(hs, Some(id)).Some?
    ensures multiset(Traversal(Removal(hs, Some(id)).index))
         == multiset(Traversal(hs)) - multiset{Lookup(hs, Some(id)).value}
    ensures Size(Removal(hs, Some(id)).index) == Size(hs) - 1
    ensures Lookup(Removal(hs, Some(id)).index, Some(id)) == None
  {
    RemovalOutcome(hs, Some(id));
    var r :| r in Traversal(hs) && r.id == id;
    StoredIdValid(hs, r);
    LookupExact(hs, id, r);
    var after := Removal(hs, Some(id)).index;
    RemovalKeepsWellFormed(hs, Some(id));
    RemovalTraversal(hs, id);
    var t := Traversal(hs);
    var j :| 0 <= j < |t| && t[j].id == id && Traversal(after) == t[..j] + t[j + 1..];
    TraversalDistinct(hs);
    LookupExact(hs, id, t[j]);
    DeleteAt(t, j);
    LookupMissing(after, id);
  }

  lemma BucketOfHeader(hs: Index, j: nat, b: nat)
    requires Ascending(hs) && Shaped(hs) && j < |hs| && b < Alpha
    ensures Bucket(hs, hs[j].cBegin, b) == hs[j].buckets[b]
  {
    FindPosExact(hs, hs[j].cBegin);
  }

  lemma DroppedHeaderGone(hs: Index, i: nat)
    requires Ascending(hs) && i < |hs|
    ensures !HasHeader(hs[..i] + hs[i + 1..], hs[i].cBegin)
  {
    var w := hs[..i] + hs[i + 1..];
    forall p | 0 <= p < |w|
      ensures w[p].cBegin != hs[i].cBegin
    {
      if p < i {
        assert w[p] == hs[p];
      } else {
        assert w[p] == hs[p + 1];
      }
    }
  }

  /** After a successful `operator-=` the header of the id's first initial
      stays if and only if, once the record is cut out of its bucket, one of
      that header's 26 buckets still holds a record; when it stays, every one
      of its buckets is what it was before, except the record's own. */
  lemma RemovalDropsEmptyHeader(hs: Index, id: CStr)
    requires WellFormed(hs) && Removal(hs, Some(id)).outcome == Pass
    ensures |id| > 0 && ParseId(Some(id)).Some?
    ensures var ini := ParseId(Some(id)).value;
      var i, b := FindPos(hs, ini.first), AlphaIndex(ini.second);
      && i < |hs| && hs[i].cBegin == id[0] && 0 <= b < Alpha
      && Position(hs[i].buckets[b], id) < |hs[i].buckets[b]|
    ensures var ini := ParseId(Some(id)).value;
      var i, b := FindPos(hs, ini.first), AlphaIndex(ini.second);
      var list := hs[i].buckets[b];
      var k := Position(list, id);
      var left := hs[i].buckets[b := list[..k] + list[k + 1..]];
      var after := Removal(hs, Some(id)).index;
      && (HasHeader(after, id[0]) <==> !AllEmpty(left))
      && (HasHeader(after, id[0]) ==> forall b' :: 0 <= b' < Alpha ==> Bucket(after, id[0], b') == left[b'])
    ensures HasHeader(Removal(hs, Some(id)).index, id[0]) <==>
      exists b :: 0 <= b < Alpha && Bucket(Removal(hs, Some(id)).index, id[0], b) != []
  {
    RemovalPosition(hs, id);
    RemovalKeepsWellFormed(hs, Some(id));
    var after := Removal(hs, Some(id)).index;
    var ini := ParseId(Some(id)).value;
    var c := ini.first;
    var i, b := FindPos(hs, c), AlphaIndex(ini.second);
    var list := hs[i].buckets[b];
    var k := Position(list, id);
    RemovalAt(hs, id, i, b, k);
    var buckets := hs[i].buckets[b := list[..k] + list[k + 1..]];
    if AllEmpty(buckets) {
      assert after == hs[..i] + hs[i + 1..];
      DroppedHeaderGone(hs, i);
      FindPosExact(after, c);
    } else {
      assert after == hs[i := Header(c, buckets)];
      forall b' | 0 <= b' < Alpha
        ensures Bucket(after, c, b') == buckets[b']
      {
        BucketOfHeader(after, i, b');
      }
      var b' :| 0 <= b' < Alpha && buckets[b'] != [];
      assert Bucket(after, c, b') != [];
    }
  }

  /** After a successful `operator-=` the header of the id's first initial
      stays if and only if some record left in the structure has an id
      starting with that initial. */
  lemma RemovalKeepsHeaderOfLiveInitial(hs: Index, id: CStr)
    requires WellFormed(hs) && Removal(hs, Some(id)).outcome == Pass
    ensures |id| > 0
    ensures HasHeader(Removal(hs, Some(id)).index, id[0]) <==>
      exists q :: q in Traversal(Removal(hs, Some(id)).index) && |q.id| > 0 && q.id[0] == id[0]
  {
    RemovalDropsEmptyHeader(hs, id);
    RemovalKeepsWellFormed(hs, Some(id));
    HeaderOfLiveInitial(Removal(hs, Some(id)).index, id[0]);
  }

  /** In a well-formed structure whose header for `c` has a non-empty bucket
      whenever it is there, that header is there exactly when some stored
      id starts with `c`. */
  lemma HeaderOfLiveInitial(w: Index, c: byte)
    requires WellFormed(w)
    requires HasHeader(w, c) <==> exists b :: 0 <= b < Alpha && Bucket(w, c, b) != []
    ensures HasHeader(w, c) <==> exists q :: q in Traversal(w) && |q.id| > 0 && q.id[0] == c
  {
    if HasHeader(w, c) {
      var b :| 0 <= b < Alpha && Bucket(w, c, b) != [];
      var j := FindPos(w, c);
      FindPosExact(w, c);
      var q := w[j].buckets[b][0];
      assert HeaderOk(w[j]) && BucketOk(w[j].buckets[b], c, b);
      assert Placed(q, c, b);
      PlacedFirst(q, c, b);
      InTraversal(w, q);
    }
    if q :| q in Traversal(w) && |q.id| > 0 && q.id[0] == c {
      StoredPlaced(w, q);
      var j, b :| 0 <= j < |w| && 0 <= b < Alpha && q in w[j].buckets[b]
                  && Placed(q, w[j].cBegin, b);
      PlacedFirst(q, w[j].cBegin, b);
    }
  }

  // ---------------------------------------------------------------------
  // Equality: operator==

  /** `GetItem` found a record with the same `Code`, and the same `TIME`
      presence and fields. */
  predicate Matches(r: Record, found: Option<Record>)
  {
    found.Some? && found.value.code == r.code && found.value.time == r.time
  }

  /** `operator==`: the same number of records, and every record of `a`
      found in `b` by id with equal code and time. */
  predicate Equivalent(a: Index, b: Index)
    requires Shaped(a) && Shaped(b)
  {
    var ta := Traversal(a);
    Size(a) == Size(b) && forall k :: 0 <= k < |ta| ==> Matches(ta[k], Lookup(b, Some(ta[k].id)))
  }

  lemma EquivalentBySize(a: Index, b: Index)
    requires Shaped(a) && Shaped(b) && Size(a) != Size(b)
    ensures !Equivalent(a, b)
  {
  }

  /** `operator==` read over the records of `a` as a set: the walk may
      visit them in any order. */
  lemma EquivalentByMembers(a: Index, b: Index)
    requires Shaped(a) && Shaped(b)
    ensures Equivalent(a, b) <==>
      Size(a) == Size(b) && forall r :: r in Traversal(a) ==> Matches(r, Lookup(b, Some(r.id)))
  {
    var ta := Traversal(a);
    if Size(a) == Size(b) && forall r :: r in ta ==> Matches(r, Lookup(b, Some(r.id))) {
      forall k | 0 <= k < |ta|
        ensures Matches(ta[k], Lookup(b, Some(ta[k].id)))
      {
        assert ta[k] in ta;
      }
    }
  }

  /** On well-formed indexes `operator==` holds exactly when both hold the
      same records, whatever their order in the lists. */
  lemma EquivalentIffSameRecords(a: Index, b: Index)
    requires WellFormed(a) && WellFormed(b)
    ensures Equivalent(a, b) <==> RecordSet(a) == RecordSet(b)
  {
    if Equivalent(a, b) {
      EquivalentGivesSameRecords(a, b);
    }
    if RecordSet(a) == RecordSet(b) {
      SameRecordsGiveEquivalent(a, b);
    }
  }

  /** Each record of `a` is found in `b`, and with distinct ids the equal
      counts leave no room for a record of `b` that is not in `a`. */
  lemma EquivalentGivesSameRecords(a: Index, b: Index)
    requires WellFormed(a) && WellFormed(b) && Equivalent(a, b)
    ensures RecordSet(a) == RecordSet(b)
  {
    var ta, tb := Traversal(a), Traversal(b);
    TraversalDistinct(a);
    TraversalDistinct(b);
    DistinctCard(ta);
    DistinctCard(tb);
    EquivalentByMembers(a, b);
    forall r | r in RecordSet(a)
      ensures r in RecordSet(b)
    {
      LookupSound(b, r.id, Lookup(b, Some(r.id)).value);
    }
    SubsetSameSize(RecordSet(a), RecordSet(b));
  }

  /** The same records give the same count, and `GetItem` on `b` finds
      each record of `a`. */
  lemma SameRecordsGiveEquivalent(a: Index, b: Index)
    requires WellFormed(a) && WellFormed(b) && RecordSet(a) == RecordSet(b)
    ensures Equivalent(a, b)
  {
    var ta, tb := Traversal(a), Traversal(b);
    TraversalDistinct(a);
    TraversalDistinct(b);
    DistinctCard(ta);
    DistinctCard(tb);
    forall r | r in ta
      ensures Matches(r, Lookup(b, Some(r.id)))
    {
      assert r in RecordSet(b);
      LookupComplete(b, r.id, r);
    }
    EquivalentByMembers(a, b);
  }

  lemma SubsetSameSize(x: set<Record>, y: set<Record>)
    requires x <= y && |x| == |y|
    ensures x == y
  {
    assert y == x + (y - x);
    assert x * (y - x) == {};
    assert |y - x| == 0;
  }

  /** `operator==` is reflexive, symmetric and transitive on well-formed
      indexes. */
  lemma EquivalentIsEquivalence(a: Index, b: Index, c: Index)
    requires WellFormed(a) && WellFormed(b) && WellFormed(c)
    ensures Equivalent(a, a)
    ensures Equivalent(a, b) ==> Equivalent(b, a)
    ensures Equivalent(a, b) && Equivalent(b, c) ==> Equivalent(a, c)
  {
    EquivalentIffSameRecords(a, a);
    EquivalentIffSameRecords(a, b);
    EquivalentIffSameRecords(b, a);
    EquivalentIffSameRecords(b, c);
    EquivalentIffSameRecords(a, c);
  }

  /** The path on which a failed `operator+=` changes the structure: with no
      header for 'a', inserting "a 1" (second initial not a letter) fails
      and leaves an empty header for 'a'. */
  lemma InsertionCanLeaveEmptyHeader()
    ensures Insertion([], Record(['a' as byte, Space, '1' as byte], 0, None))
         == Step(Fail(NotALetter), [EmptyHeader('a' as byte)])
  {
    var id: CStr := ['a' as byte, Space, '1' as byte];
    assert SpacePos(id) == 1 by {
      assert id[0] != Space && id[1] == Space;
      assert SpacePos(id[1..]) == 0;
    }
    assert ParseId(Some(id)) == Some(Initials('a' as byte, '1' as byte));
  }
}
