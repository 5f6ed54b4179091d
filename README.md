# Two-level record index (`DataStructure`) in Dafny

This project models the core of `DataStructure.cpp`: an in-memory index of
`ITEM2` records keyed by a two-word identifier, and the binary file layout
that `Write` produces and the file-reading constructor reads back.

- A record (`Struct.Record`) has an identifier (a C string, `Ids.CStr`: bytes
  with no NUL), a `Code`, and an optional `TIME` of three fields.
- The first level is the list `pStruct2` of `HEADER_C` headers. Each header
  is tagged with `cBegin`, the identifier's first byte, taken as written (not
  upper-cased). Headers are kept in strictly ascending order of `cBegin`
  compared as a signed `char`.
- The second level is the 26 bucket slots `ppItems` of each header. Slot `b`
  holds the records whose second initial (the byte after the leftmost space)
  is the letter `b`, in either case. Each slot is a list, most recently
  inserted first.

The model has three layers:

- `Ids` (`ids.dfy`) holds the pure helpers `parseID` and `alphaIndex`.
  `Bytes` (`bytes.dfy`) holds the 4-byte little-endian fields.
- `Struct` (`struct.dfy`) is the index as a value: `Index = seq<Header>`.
  It defines the functions `Lookup` (`GetItem`), `Insertion` (`operator+=`),
  `Removal` (`operator-=`), `Traversal`/`Size` (`GetItemsNumber`) and
  `Equivalent` (`operator==`). Its lemmas state what each operation promises
  and that each keeps the invariant `WellFormed`. The invariant says:
  - headers are strictly ascending, so there is at most one per `cBegin`;
  - every record sits in the header and bucket its id selects;
  - no id occurs twice.
- `Store` (`store.dfy`) is the structure on the heap. The class
  `DataStructure` holds the header nodes. Each `HeaderNode` owns an `array`
  of 26 bucket slots, which the methods update in place. Every method that
  has a specifying function is proved to act on `Model()` exactly as that
  function (in `Struct` or `Codec`) says. `Copy` and `Assign` are specified
  by `Model()` and freshness directly.
- `Codec` (`codec.dfy`) is the file layout as pure functions over byte
  sequences. `Encode` is `Write`. `Decode` is the file-reading constructor,
  which inserts each record it reads through `operator+=`.
- `Scenarios` (`scenarios.dfy`) proves short scenarios: inserting
  "Alice Smith" and "Bob Smith", looking one up, removing it, writing and
  reading back; a duplicate insert; a one-word id.

Points where the code is followed as written:

- The first initial is not case-folded. Headers for `a` and `A` are distinct
  and ordered by character code. Bytes 128..255 sort below ASCII, because
  `char` is signed.
- `operator+=` creates and links the header for the first initial before it
  checks the second initial. An insert that fails because the second initial
  is not a letter therefore leaves an empty header behind, and the index is
  not unchanged on that path (`Struct.InsertionCanLeaveEmptyHeader`). For the
  same reason, `WellFormed` allows headers whose 26 buckets are all empty.
- The reader treats any nonzero `hasTime` byte as "time present".
- The reader keeps the id only up to its first zero byte, because the id is
  used as a C string.
- The reader inserts through `operator+=`, so each bucket's list comes back
  in reverse order. A written file therefore reads back `operator==` to the
  original, with the same set of records, but not as the identical list
  structure.

## Model

| member | source | states |
|---|---|---|
| `Ids.AlphaIndex` | DataStructure.cpp:29-34 | the result is in -1..25; it is non-negative iff the byte is an ASCII letter; 'A'..'Z' and 'a'..'z' both map to their position in the alphabet |
| `Ids.SpacePos` | DataStructure.cpp:41 | the position of the leftmost space (`strchr`): no space before it, a space at it, or the length when there is none |
| `Ids.ParseId` | DataStructure.cpp:37-53 | None iff the id is null, has no space, starts with a space, or has nothing after its leftmost space; otherwise the first byte and the byte right after the leftmost space |
| `Ids.ParseTwoWords` | DataStructure.cpp:37-53 | for "w1 w2" with w1 free of spaces, the initials are w1[0] and w2[0], whatever else w2 contains |
| `Ids.CharCode` | DataStructure.cpp:71 | the signed `char` value of a byte, in -128..127 and congruent to the byte mod 256 |
| `Ids.ToUpper` | DataStructure.cpp:31 | `std::toupper` in the "C" locale: the result is never a lower-case letter, it is an upper-case letter iff the byte is a letter, a lower-case letter becomes its upper-case form, and every other byte is unchanged |
| `Ids.CStrOf` | DataStructure.cpp:215-217 | the C string a buffer holds: its prefix up to the first zero byte |
| `Struct.EmptyHeader` | DataStructure.cpp:56-64 | `makeHeader`: the given `cBegin` and 26 empty buckets |
| `Struct.Traversal` | DataStructure.cpp:291-302 | the walk of `GetItemsNumber` and `Write`: the headers from the head of `pStruct2`, in each one buckets 0..25, each list from its head (a definition, without a contract of its own) |
| `Struct.InTraversal` | DataStructure.cpp:291-302 | a record is visited by the walk iff it is in some bucket of some header |
| `Struct.Size` | DataStructure.cpp:291-302 | what `GetItemsNumber` counts: the number of records the walk visits (a definition, without a contract of its own) |
| `Struct.FindPos` | DataStructure.cpp:67-78 | where `findHeader` stops: every header before it has a smaller `cBegin`, the one at it (if any) does not |
| `Struct.FindPosExact` | DataStructure.cpp:76-77 | on ascending headers, `findHeader` returns a header iff one has that `cBegin`, and it is the only one |
| `Struct.Position` | DataStructure.cpp:318-323 | the first record of a bucket whose id matches (`strcmp` == 0), or the list length |
| `Struct.Lookup` | DataStructure.cpp:305-325 | `GetItem` is total; a found record has exactly the id asked for, a well-formed id (two words, letter second initial) and an existing header; so a null/malformed id, a missing header or a non-letter second initial give None |
| `Struct.LookupExact` | DataStructure.cpp:305-325 | on a well-formed index, `GetItem(id)` returns r iff r is stored with that id |
| `Struct.LookupMissing` | DataStructure.cpp:324 | `GetItem(id)` is null iff no stored record has that id |
| `Struct.StoredPlaced` | DataStructure.cpp:338-349 | every stored record sits in the header of its first initial and the bucket of its second initial |
| `Struct.TraversalDistinct` | DataStructure.cpp:333-334 | no two records of a well-formed index share an id |
| `Struct.WithHeader` | DataStructure.cpp:336-341 | after find-or-make, a header for the initial sits where `findHeader` stopped |
| `Struct.WithHeaderFacts` | DataStructure.cpp:336-341 | find-or-make keeps the invariant and every record; it leaves the index as is when the header exists, else splices in one empty header |
| `Struct.InsertHeaderSortedKeepsOrder` | DataStructure.cpp:81-90 | linking a new header after `previousHeader` keeps the headers strictly ascending |
| `Struct.Prepend` | DataStructure.cpp:346-349 | the record becomes the head of bucket `b`; `cBegin`, the number of buckets and every other bucket are unchanged |
| `Struct.PrependTraversal` | DataStructure.cpp:346-349 | head insertion into one bucket adds exactly that record to the records the walk visits |
| `Struct.Insertion` | DataStructure.cpp:328-350 | `operator+=` keeps 26 slots per header (its behaviour is stated by the lemmas below) |
| `Struct.InsertionOutcome` | DataStructure.cpp:328-350 | fails MalformedId iff the id does not parse, DuplicateId iff the id is stored, NotALetter iff the second initial is not a letter; passes iff the id is valid and new |
| `Struct.InsertionKeepsWellFormed` | DataStructure.cpp:328-350 | every outcome of `operator+=` keeps the ordering, placement and distinct-id invariant |
| `Struct.InsertionFailureKeepsRecords` | DataStructure.cpp:332-344 | a failed insert keeps every record, so lookups answer as before; malformed and duplicate ids change nothing, and a non-letter second initial can add at most one empty header |
| `Struct.InsertionAdds` | DataStructure.cpp:345-349 | a successful insert adds exactly the record, raises the count by 1, puts it at the head of its bucket, and `GetItem` then returns it with the same code and time |
| `Struct.InsertionCanLeaveEmptyHeader` | DataStructure.cpp:338-344 | inserting "a 1" into an empty index fails with NotALetter and leaves an empty header for 'a' |
| `Struct.Removal` | DataStructure.cpp:353-394 | `operator-=` keeps 26 slots per header (its behaviour is stated by the lemmas below) |
| `Struct.RemovalOutcome` | DataStructure.cpp:353-394 | fails MalformedId iff the id does not parse, NotFound iff it is not stored; passes iff stored; a failure changes nothing |
| `Struct.RemovalKeepsWellFormed` | DataStructure.cpp:353-394 | every outcome of `operator-=` keeps the invariant |
| `Struct.RemovalTraversal` | DataStructure.cpp:366-370 | a successful remove takes exactly one record with that id out of the traversal, and leaves the rest in order |
| `Struct.RemovalDeletes` | DataStructure.cpp:366-371 | a successful remove deletes exactly the record `GetItem` found, lowers the count by 1, and `GetItem` then returns null |
| `Struct.RemovalDropsEmptyHeader` | DataStructure.cpp:373-387 | after a successful remove, the header of the first initial remains iff its 26 buckets, with the removed record taken out of its list, are not all empty; when it remains, it holds exactly those buckets |
| `Struct.RemovalKeepsHeaderOfLiveInitial` | DataStructure.cpp:373-387 | after a successful remove, the header of the first initial remains iff some record left in the index has an id starting with that initial |
| `Struct.Equivalent` | DataStructure.cpp:405-427 | `operator==`: the same record count, and every record of the left operand found by `GetItem` in the right one with the same code, TIME presence and fields (a definition; its meaning is stated by the two lemmas below) |
| `Struct.EquivalentIffSameRecords` | DataStructure.cpp:405-427 | on well-formed indexes, `==` holds iff both hold the same set of records |
| `Struct.EquivalentIsEquivalence` | DataStructure.cpp:405-427 | `==` is reflexive, symmetric and transitive on well-formed indexes |
| `Bytes.LittleEndianRoundTrip` | DataStructure.cpp:186 | an n-byte little-endian field reads back the value written, when the value fits |
| `Bytes.U32RoundTrip` | DataStructure.cpp:449-450 | a `uint32_t` field written and read back gives the value |
| `Bytes.U32BytesOf` | DataStructure.cpp:440-441 | the four bytes of a `uint32_t`, least significant first |
| `Codec.FileHeader` | DataStructure.cpp:436-441 | the 12-byte file header: magic 0x53324453, version 1 and the count, each a little-endian `uint32_t` (a definition; `Codec.EncodeLayout` states its bytes) |
| `Codec.EncodeItem` | DataStructure.cpp:445-460 | one record as written: `idLength` as `strlen` cast to `uint32_t` (the length mod 2^32), that many id bytes, `Code`, the `hasTime` flag 1 or 0 and, if set, the TIME fields (a definition; `Codec.DecodeItemRoundTrip` states that it reads back) |
| `Codec.Encode` | DataStructure.cpp:430-463 | `Write`: refuses an empty structure, otherwise the file header with the count and the records in walk order (a definition; `Codec.EncodeLayout` and `Codec.RoundTrip` state its properties) |
| `Codec.EncodeLayout` | DataStructure.cpp:430-463 | `Write` refuses exactly the empty index; otherwise it emits bytes 53 44 32 53 (magic), version 1, the count, then every record in traversal order |
| `Codec.TimeRoundTrip` | DataStructure.cpp:458-459 | the three TIME fields read back as written |
| `Codec.DecodeItem` | DataStructure.cpp:185-210 | a decoded record consumes at least one byte and no more than the input holds |
| `Codec.DecodeItemRoundTrip` | DataStructure.cpp:185-221 | a record as written (non-empty id shorter than 2^32 bytes) reads back as the same record, using exactly its bytes |
| `Codec.DecodeItems` | DataStructure.cpp:182-229 | the reader's loop: `count` records, each parsed and inserted through `operator+=`, the first failure ending the read with its error (a definition; the lemmas below state its properties) |
| `Codec.Decode` | DataStructure.cpp:160-230 | the file-reading constructor: a short header, a wrong magic or a wrong version is refused with BadHeader, then the loop runs from an empty structure (a definition; the lemmas below state its properties) |
| `Codec.DecodeFileHeader` | DataStructure.cpp:174-182 | a file that starts with a valid file header is read as the loop over the count it announces and the bytes after the header |
| `Codec.DecodeItemsRoundTrip` | DataStructure.cpp:182-229 | reading the records of loadable items into an index adds exactly them and keeps the invariant |
| `Codec.RoundTrip` | DataStructure.cpp:160-230 | for a non-empty well-formed index, the written file reads back without error to a well-formed index with the same records, `==` to the original |
| `Codec.DecodeChecksFileHeader` | DataStructure.cpp:174-179 | an accepted file is at least 12 bytes and starts with the magic and version 1 |
| `Codec.DecodeRejectsTruncation` | DataStructure.cpp:209-210 | every proper prefix of a written file is refused |
| `Codec.DecodeItemsRefusedAfter` | DataStructure.cpp:182-229 | after any records that load, bytes the reader cannot take as a record end the read with the error they give, when the count announces them as the next record |
| `Codec.DecodeRejectsEmptyId` | DataStructure.cpp:187-188 | a zero idLength is refused with BadIdLength after any number of records that load, when the count announces it as the next record |
| `Codec.DecodeNoRecords` | DataStructure.cpp:182 | a file announcing 0 records reads as the empty index |
| `Codec.DecodeSingleRecord` | DataStructure.cpp:228 | a one-record file is accepted iff `operator+=` accepts its id, and is otherwise refused with MalformedId or NotALetter |
| `Codec.DecodeStoredId` | DataStructure.cpp:333-334 | whatever the remaining count and whatever bytes follow, the reader refuses with DuplicateId a record whose id is already stored |
| `Codec.DecodeItemsDuplicateAfter` | DataStructure.cpp:181-229 | after any records that load, a record repeating an id stored before them or carried by one of them ends the read with DuplicateId, when the count announces it as the next record |
| `Codec.DecodeRejectsDuplicate` | DataStructure.cpp:228 | a file whose records up to the next one all load, and whose next record repeats the id of one of them, is refused with DuplicateId, when the count announces that record as the last one |
| `Codec.DecodeInvalidId` | DataStructure.cpp:332 | whatever the remaining count and whatever bytes follow, a record whose id `operator+=` cannot take is refused: MalformedId when `parseID` throws (DataStructure.cpp:45-46), NotALetter when the second initial is not a letter (DataStructure.cpp:343-344) |
| `Codec.DecodeItemsInvalidAfter` | DataStructure.cpp:181-229 | after any records that load, a record whose id `operator+=` cannot take ends the read with MalformedId or NotALetter, when the count announces it as the next record |
| `Codec.DecodeItemsInvalid` | DataStructure.cpp:182-228 | the same from an empty structure: the loop, run for one more record than the loadable ones before the refused id, ends with that refusal |
| `Codec.DecodeRejectsInvalidId` | DataStructure.cpp:228 | a file whose records up to the next one all load, and whose next record has an id `operator+=` cannot take, is refused with MalformedId when the id does not parse and NotALetter otherwise, whatever follows |
| `Store.HeaderNode.constructor` | DataStructure.cpp:56-64 | `makeHeader`: a fresh slot array of 26 empty lists |
| `Store.ScanBucket` | DataStructure.cpp:318-324 | the bucket scan returns a record with that id from the list, or none iff the list holds no such id |
| `Store.Locate` | DataStructure.cpp:362-392 | the scan loop stops at the first record with that id |
| `Store.HeaderIsEmpty` | DataStructure.cpp:373-379 | true iff all 26 slots are empty |
| `Store.CopyList` | DataStructure.cpp:266-278 | tail-append copying reproduces the list in the same order |
| `Store.CopyHeader` | DataStructure.cpp:263-280 | a fresh header with the same `cBegin` and the same 26 lists |
| `Store.CopyHeaders` | DataStructure.cpp:260-287 | the same headers in the same order, each a fresh node with a fresh slot array and no two sharing one; the other node fields are `const`, so the copy is independent of the source |
| `Store.EmitList` | DataStructure.cpp:445-460 | the write loop over one list appends the encoding of its records |
| `Store.EmitHeader` | DataStructure.cpp:444-461 | the write loop over one header appends its buckets 0..25 in turn |
| `Store.Agrees` | DataStructure.cpp:414-422 | true iff a record was found with the same code, the same TIME presence and the same Hour, Min and Sec |
| `Store.DataStructure.constructor` | DataStructure.cpp:24 | the default constructor builds the empty index |
| `Store.DataStructure.FindHeader` | DataStructure.cpp:67-78 | `findHeader` returns the stop position, its predecessor (null at the head) and the header iff one exists for the initial |
| `Store.DataStructure.GetItem` | DataStructure.cpp:305-325 | returns exactly `Lookup` of the current index |
| `Store.DataStructure.GetItemsNumber` | DataStructure.cpp:291-302 | the nested loops count exactly the records of the index |
| `Store.DataStructure.InsertHeaderSorted` | DataStructure.cpp:81-90 | the new header is linked in at the given position, and nothing else moves |
| `Store.DataStructure.LinkNewHeader` | DataStructure.cpp:339-340 | splices an empty header for the initial in at the given position |
| `Store.DataStructure.EnsureHeader` | DataStructure.cpp:336-341 | leaves the index as `WithHeader` says, with the header at `findHeader`'s position |
| `Store.DataStructure.PrependAt` | DataStructure.cpp:346-349 | the record becomes the head of the chosen bucket, and nothing else changes |
| `Store.DataStructure.Insert` | DataStructure.cpp:328-350 | outcome and new index are exactly `Insertion` of the old index, and the invariant is kept |
| `Store.DataStructure.UnlinkAt` | DataStructure.cpp:366-370 | the record at that position leaves its bucket, and nothing else changes |
| `Store.DataStructure.DropHeader` | DataStructure.cpp:380-387 | the header at that position leaves the list |
| `Store.DataStructure.UnlinkAndTidy` | DataStructure.cpp:366-387 | unlinks the record, then the header iff its 26 buckets are now empty |
| `Store.DataStructure.RemoveFound` | DataStructure.cpp:365-388 | the found case of `operator-=` matches `Removal` |
| `Store.DataStructure.Remove` | DataStructure.cpp:353-394 | outcome and new index are exactly `Removal` of the old index, and the invariant is kept |
| `Store.DataStructure.Copy` | DataStructure.cpp:258-288 | the copy has fresh header nodes and fresh slot arrays, the same headers in the same order and the same lists, so it is `==` to the original |
| `Store.DataStructure.Assign` | DataStructure.cpp:397-402 | self-assignment changes nothing; otherwise the index becomes a deep copy of the right operand, with fresh header nodes and slot arrays |
| `Store.DataStructure.Equals` | DataStructure.cpp:405-427 | returns exactly `Equivalent` of the two indexes |
| `Store.DataStructure.MatchAll` | DataStructure.cpp:407-425 | true iff every record of this index is matched in the other |
| `Store.DataStructure.MatchHeader` | DataStructure.cpp:408-424 | true iff every record of the header's 26 lists is matched |
| `Store.DataStructure.MatchList` | DataStructure.cpp:409-423 | true iff every record of the list is found with equal code and time |
| `Store.DataStructure.Write` | DataStructure.cpp:430-463 | returns exactly `Encode` of the index |
| `Store.DataStructure.LoadNext` | DataStructure.cpp:182-228 | one turn of the reader's loop: a refusal by the record parser or by `operator+=` is the error `DecodeItems` gives; otherwise the new `Model()` is what `DecodeItems` goes on from, after the bytes consumed |
| `Store.DataStructure.Read` | DataStructure.cpp:160-230 | builds a new structure, with a representation disjoint from every existing one; on bytes `Decode` accepts, it is valid and holds `Decode`'s result; otherwise `Decode`'s error is reported |
| `Scenarios.InsertFresh` | DataStructure.cpp:328-350 | inserting a valid id not yet stored succeeds and adds one record |
| `Scenarios.InsertTwoThenFind` | DataStructure.cpp:305-350 | inserting "Alice Smith" (code 1, no time) and "Bob Smith" (code 2, 09:30:00) both succeed; the count is 2 and "Alice Smith" is found with code 1 and no time |
| `Scenarios.RemoveStored` | DataStructure.cpp:353-394 | removing a stored id succeeds, lowers the count by 1, and the id is then not found |
| `Scenarios.RemoveThenMissing` | DataStructure.cpp:353-394 | removing "Alice Smith" leaves count 1, and the id is no longer found |
| `Scenarios.RemovalRoundTrip` | DataStructure.cpp:430-463 | after removing one of at least two records, writing and reading back gives an index `==` to the remaining one |
| `Scenarios.WriteThenRead` | DataStructure.cpp:160-230 | the index left after the removal reads back `==` to itself |
| `Scenarios.DuplicateInsert` | DataStructure.cpp:333-334 | inserting "Alice Smith" twice: the second insert fails with DuplicateId, changes nothing, and the count stays 1 |
| `Scenarios.OneWordId` | DataStructure.cpp:45-46 | the id "Alice" is refused as malformed with no change, and `GetItem` returns null for it |

## Left out

- The bulk constructor `DataStructure(int n)` (DataStructure.cpp:120-144) is left out. It pulls records from the random generator `::GetItem` of `DataSource.h`, and `DataSource.h` is not part of this model.
- File opening and stream state (DataStructure.cpp:162-164, 433-434) are left out. The codec works on byte sequences, so "cannot open file" has no counterpart.
- Manual memory management is left out: the destructor, `destroyItem2`, the placement-new in `operator=`, and the record leaked by the reader. Dafny is garbage-collected, so `Assign` replaces the header list by a fresh copy.
- `cloneItem2` has no member of its own. Records are immutable values, so the deep copy `operator+=` and the copy constructor store is the value itself.
- Bucket lists are `seq<Record>` values held in each header's slot array. The header list is a `seq` of header nodes, not a chain of `pNext` pointers. The model therefore does not capture pointer-level aliasing inside one list.
- `operator<<` text output (DataStructure.cpp:466-477) is left out. It is stream formatting only.
- `Items.h` and `Headers.h` are not part of this model. `TIME` is taken as three 4-byte fields (Hour, Min, Sec), and `Code` as 4 bytes. Both are written little-endian, which replaces the host-endian struct dumps.
- Store.DataStructure.Insert: two null checks are not modelled, because `Record.id` is a byte sequence and a `Record` value cannot be null. They are the null `p` check of `operator+=` (DataStructure.cpp:329) and the "ID is null" throw that `parseID` makes for a record whose `pID` is null (DataStructure.cpp:38).
- Store.DataStructure.GetItemsNumber: counts with an unbounded `nat`, so a count above the range of `int` is not modelled.
- Store.DataStructure.Read: on failure it also returns the partly filled structure. The C++ constructor throws instead, and no object results.
- Codec.RoundTrip: holds only for fewer than 2^32 records and for ids shorter than 2^32 bytes. The writer truncates both lengths to `uint32_t`; `Encode` models that truncation, but the round trip is not claimed for it.
- Codec.DecodeRejectsTruncation: shown for prefixes of files the writer produces, not for arbitrary malformed input.
- Codec.DecodeRejectsEmptyId: the count in the file header is taken to be one more than the records before the zero idLength. A larger count makes the reader stop at the same record, but that case is not proved.
- Codec.DecodeRejectsDuplicate: the count in the file header is taken to be one more than the records before the repeated id, and those records are taken to load. A larger count makes the reader stop at the same record, but that case is not proved. A file whose earlier records are refused stops at the first refusal, with that record's error: `Codec.DecodeItemsRefusedAfter` states it for bytes the record parser refuses, and `Codec.DecodeItemsInvalidAfter` for an id `operator+=` cannot take.
- Codec.DecodeItemsRefusedAfter: the count in the file header is taken to be one more than the records before the bytes the parser refuses. A larger count makes the reader stop at the same place, but that case is not proved.
- Codec.DecodeItemsInvalidAfter: the count is taken to be one more than the records before the refused id, as for `Codec.DecodeRejectsInvalidId`. A larger count makes the reader stop at the same record, but that case is not proved.
- Codec.DecodeRejectsInvalidId: the count in the file header is taken to be one more than the records before the refused id, and those records are taken to load. A larger count makes the reader stop at the same record, but that case is not proved.
