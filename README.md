# SimpleDB storage, transaction and statistics core, in Dafny

This project models the core of SimpleDB, the teaching database of MIT's
6.830 course, in the version of the repository derecknowayback/mit6.830.
It covers:

- schemas and tuples (`TupleDesc`, `Tuple`);
- the on-disk layout and slot bookkeeping of heap pages (`HeapPage`);
- B-tree header pages (`BTreeHeaderPage`);
- the page lock table (`TxLockManager`);
- the buffer pool (`BufferPool`) with its LRU-like eviction, flushing and commit/abort handling;
- the write-ahead log (`LogFile`): record layout, rollback, checkpoints, truncation and recovery;
- the catalog and its schema-file parser (`Catalog`);
- the integer histogram (`IntHistogram`, bucket arithmetic only);
- the grouping aggregators (`IntegerAggregator`, `StringAggregator`).

Each Java class whose fields are updated in place is a Dafny `class` with
the same fields. Its methods carry `modifies` clauses and state the new
state in terms of the old one. The byte layouts, lock-table updates, log
contents and recovery decisions are pure functions over values. The
properties the source promises are lemmas about those functions, such as:

- round trips of every page format;
- the lock-compatibility invariant;
- "the (corrected) cache lists exactly the clear slots";
- "undo restores the earliest before-image";
- "truncation relocates every pointer".

Java's 32-bit `int` and 64-bit `long` are modelled as bounded newtypes. Their
wrap-around (`JavaInts.Wrap32`) and truncating division (`JavaInts.JavaDiv`)
are written out where the source relies on them. Exceptions are the `Error`
values of a `Result` or `Outcome`.

Modules, in dependency order:

| module | file | models |
|---|---|---|
| `Wrappers` | wrappers.dfy | Option/Result/Outcome, the Java exceptions involved, generic list facts |
| `JavaInts` | java_ints.dfy | `int`/`long` ranges, 32-bit wrap-around, truncating division |
| `Bits` | bits.dfy | bytes and single-bit get/set as arithmetic |
| `ByteCodec` | byte_codec.dfy | `DataOutputStream.writeInt`/`writeLong` and the matching reads |
| `JavaStrings` | java_strings.dfy | `indexOf`, `substring`, `trim`, `split` as the catalog parser uses them |
| `Ids` | ids.dfy | transaction ids, heap and B-tree page ids, page-id serialization |
| `Schema` | schema.dfy | `TupleDesc` and `TDItem` |
| `Records` | records.dfy | `Tuple`, `RecordId` |
| `FieldCodec` | field_codec.dfy | the byte form of integer and string fields |
| `HeapPageFormat` | heap_page_format.dfy | the byte layout of a heap page, encode/decode round trip |
| `HeapPageSlots` | heap_page_slots.dfy | `tupleList`/`unusedList` bookkeeping, as written and corrected |
| `HeapPages` | heap_page.dfy | class `HeapPage` |
| `BTreeHeaderPages` | btree_header_page.dfy | class `BTreeHeaderPage` and its layout |
| `Locks` | locks.dfy | class `TxLockManager` and the lock table as a value |
| `Disks` | disks.dfy | the database files the buffer pool reads and writes, as a page store |
| `BufferPools` | buffer_pool.dfy | class `BufferPool` |
| `LogRecords` | log_records.dfy | log record kinds and their byte form, record offsets |
| `LogLayout` | log_layout.dfy | `writePageData`/`readPageData` |
| `LogRecovery` | log_recovery.dfy | rollback, recovery and truncation as functions on the record list |
| `WriteAheadLog` | log_file.dfy | class `LogFile` |
| `Catalogs` | catalog.dfy | class `Catalog` and the schema-file parser |
| `Histograms` | int_histogram.dfy | class `IntHistogram` |
| `Aggregators` | aggregators.dfy | classes `IntegerAggregator` and `StringAggregator` |

The model takes these as parameters instead of calling into the running
database:

- the page size, which `BufferPool.getPageSize()` supplies;
- a page's schema, which the catalog supplies to `new HeapPage`;
- the answer of a `DbFile` operation: the pages it reports as dirtied, or the exception it throws;
- the catalog `Database.getCatalog()` returns, as a `Catalogs.Catalog` argument of the buffer pool's `insertTuple`/`deleteTuple`;
- the contents of the schema file, given as its lines;
- the table ids, which the source computes as the hash of each HeapFile's absolute path.

## Model

| member | source | states |
|---|---|---|
| Schema.ItemEquals | src/java/simpledb/storage/TupleDesc.java:40-47 | two items are equal exactly when the types agree and the names are both null or both present and equal |
| Schema.NewTupleDesc | src/java/simpledb/storage/TupleDesc.java:75-91 | item i pairs the i-th type with the i-th name, or with no name when there is no name array; a missing or empty type array gives a descriptor with no list; a name array shorter than the type array is an index-out-of-bounds failure |
| Schema.EmptyTupleDesc | src/java/simpledb/storage/TupleDesc.java:104-106 | the no-argument constructor has zero fields and size zero |
| Schema.TupleDesc.GetFieldName | src/java/simpledb/storage/TupleDesc.java:124-129 | succeeds exactly for indexes 0 <= i < numFields, with item i's name; otherwise NoSuchElementException |
| Schema.TupleDesc.GetFieldType | src/java/simpledb/storage/TupleDesc.java:139-144 | succeeds exactly for indexes 0 <= i < numFields, with item i's type; otherwise NoSuchElementException |
| Schema.TupleDesc.IndexForFieldName | src/java/simpledb/storage/TupleDesc.java:153-166 | succeeds exactly when some item carries the name; the index is of the first such item; otherwise NoSuchElementException |
| Schema.GetSizeIsWidth | src/java/simpledb/storage/TupleDesc.java:172-179 | the size equals the widths summed from the first field on, and is 0 exactly when there are no fields |
| Schema.SizeOfFromFront | src/java/simpledb/storage/TupleDesc.java:172-179 | summing the field widths from the back or from the front gives the same total |
| Schema.TupleDesc.GetItem | src/java/simpledb/storage/TupleDesc.java:185-189 | item i for an index in range, null out of range |
| Schema.Merge | src/java/simpledb/storage/TupleDesc.java:199-209 | null when either argument is null; otherwise td1's items followed by td2's |
| Schema.MergeCounts | src/java/simpledb/storage/TupleDesc.java:199-209 | a merged descriptor's field count and size are the sums of the parts', and its item i is td1's item i or td2's item i - numFields(td1) |
| Schema.TupleDesc.Equals | src/java/simpledb/storage/TupleDesc.java:221-230 | the result is true exactly when the other descriptor is non-null and equal to this one, that is, it has the same number of items and each has the same type and name as this one's |
| Records.DefaultRow | src/java/simpledb/storage/Tuple.java:31-46 | a new tuple of a descriptor with at least one field holds one default field per column, of the column's type; otherwise it holds no fields |
| Records.Tuple.constructor | src/java/simpledb/storage/Tuple.java:31-46 | the loop leaves the fields and the descriptor that DefaultRow and DefaultDesc describe, and no record id |
| Records.Tuple.SetRecordId | src/java/simpledb/storage/Tuple.java:68-70 | the record id becomes the argument |
| Records.Tuple.SetField | src/java/simpledb/storage/Tuple.java:78-81 | only field i changes, to f; an index out of range changes nothing |
| Records.Tuple.GetField | src/java/simpledb/storage/Tuple.java:87-91 | field i inside the row, null outside it |
| Records.SetThenGet | src/java/simpledb/storage/Tuple.java:78-91 | reading a field back after setField gives what was set, and every other field is unchanged |
| Records.Tuple.ResetTupleDesc | src/java/simpledb/storage/Tuple.java:126-131 | the descriptor and fields become those of a fresh tuple of the new descriptor; the record id is kept |
| FieldCodec.SerializeField | src/java/simpledb/storage/HeapPage.java:209-217 | a serialized field is exactly as wide as its type |
| FieldCodec.ParseField | src/java/simpledb/storage/HeapPage.java:153-161 | a parsed field has the requested type, is well formed and used bytes that are there |
| FieldCodec.ParseSerialize | src/java/simpledb/storage/HeapPage.java:150-161 | parsing the bytes of a well-formed field, wherever they sit, gives the field back |
| FieldCodec.ParseFieldLocal | src/java/simpledb/storage/HeapPage.java:150-161 | parsing depends only on the type's own bytes |
| HeapPageFormat.NumTuplesIsFloor | src/java/simpledb/storage/HeapPage.java:85-87 | the slot count is the largest n whose records plus one header bit per slot fit in the page |
| HeapPageFormat.HeaderSize | src/java/simpledb/storage/HeapPage.java:94-96 | the header has ceil(numSlots / 8) bytes: enough bits for every slot, with fewer than 8 to spare |
| HeapPageFormat.LayoutFits | src/java/simpledb/storage/HeapPage.java:85-96 | the header and all records fit in the page, so the padding is never negative for a page built by the constructor |
| HeapPageFormat.SetBit | src/java/simpledb/storage/HeapPage.java:380-384 | bit n becomes v and every other bit of the byte is kept |
| HeapPageFormat.MarkSlot | src/java/simpledb/storage/HeapPage.java:334-337 | slot i's bit takes the value and no other slot's bit changes |
| HeapPageFormat.CountClearPositive | src/java/simpledb/storage/HeapPage.java:306-321 | the count of clear slots is positive exactly when some slot is clear |
| HeapPageFormat.RowBytesWidth | src/java/simpledb/storage/HeapPage.java:208-220 | a tuple of the page's schema serializes to exactly getSize bytes |
| HeapPageFormat.ParseRowShape | src/java/simpledb/storage/HeapPage.java:148-161 | a parsed record's fields are of the schema's types and well formed, and the record lay within the data |
| HeapPageFormat.ParseRowBytes | src/java/simpledb/storage/HeapPage.java:148-161 | parsing the serialized bytes of a well-typed row gives the row back |
| HeapPageFormat.EncodePageLength | src/java/simpledb/storage/HeapPage.java:177-236 | a page whose slots all serialize writes exactly pageSize bytes |
| HeapPageFormat.EncodeWritable | src/java/simpledb/storage/HeapPage.java:219-228 | a page whose records all serialize writes header, records and padding, unless the records overrun the page and the padding array has negative size |
| HeapPageFormat.WellFormedEncodable | src/java/simpledb/storage/HeapPage.java:177-236 | a page whose used slots hold tuples of its schema can always be written out |
| HeapPageFormat.EncodedSlotBytes | src/java/simpledb/storage/HeapPage.java:177-236 | in the written page, slot i's record starts at headerSize + i * tupleSize |
| HeapPageFormat.ReadEncodedSlot | src/java/simpledb/storage/HeapPage.java:135-164 | reading slot i back from the written bytes gives the tuple the slot shows |
| HeapPageFormat.RoundTrip | src/java/simpledb/storage/HeapPage.java:166-176 | the documented invariant: the constructor applied to getPageData's bytes reproduces the page, with every empty slot shown as null |
| HeapPageFormat.EmptyPageData | src/java/simpledb/storage/HeapPage.java:242-245 | an empty page image has pageSize bytes |
| HeapPageFormat.EmptyPageDecodes | src/java/simpledb/storage/HeapPage.java:238-245 | an empty page image decodes to a page whose slots are all clear and null |
| HeapPageFormat.DecodedPageWellFormed | src/java/simpledb/storage/HeapPage.java:54-78 | a page decoded from any bytes holds tuples of its schema in its used slots and nothing in its empty ones |
| HeapPageSlots.Remove | src/java/simpledb/storage/HeapPage.java:312 | List.remove(Object) of an absent element leaves the list unchanged |
| HeapPageSlots.RemoveKeepsDistinct | src/java/simpledb/storage/HeapPage.java:312 | removing from a list without duplicates keeps it so and drops exactly that element |
| HeapPageSlots.AddOnce | src/java/simpledb/storage/HeapPage.java:313 | the corrected cache's add (Findings row 1): the element is in the result, and the result holds exactly the old elements and it |
| HeapPageSlots.AddOnceKeepsDistinct | src/java/simpledb/storage/HeapPage.java:313 | adding only when absent keeps a list free of duplicates |
| HeapPageSlots.UsedBitsAt | src/java/simpledb/storage/HeapPage.java:326-329 | entry i of the bitmap is isSlotUsed(i) |
| HeapPageSlots.CountClearBits | src/java/simpledb/storage/HeapPage.java:306-321 | the header's clear-slot count equals the bitmap's |
| HeapPageSlots.ClearSlots | src/java/simpledb/storage/HeapPage.java:306-321 | the set of clear slots below n, exactly |
| HeapPageSlots.ClearSlotsCount | src/java/simpledb/storage/HeapPage.java:306-321 | there are as many clear slots as the scan counts |
| HeapPageSlots.DistinctCard | src/java/simpledb/storage/HeapPage.java:306-321 | a list without duplicates is as long as its set of elements |
| HeapPageSlots.ScanSlotKeeps | src/java/simpledb/storage/HeapPage.java:310-319 | one corrected step of getNumUnusedSlots keeps both lists duplicate-free and valid, and brings slot i into agreement with the bitmap |
| HeapPageSlots.ScanPrefix | src/java/simpledb/storage/HeapPage.java:306-321 | after the first k corrected steps, tupleList lists exactly the used and unusedList exactly the clear slots below k |
| HeapPageSlots.ScanCaches | src/java/simpledb/storage/HeapPage.java:306-321 | after the corrected scan the cache holds every clear slot once, so its length is the count returned |
| HeapPageSlots.PopKeeps | src/java/simpledb/storage/HeapPage.java:272-281 | after the corrected rescan the head of the cache is a clear slot not in tupleList, and taking it keeps both lists exact |
| HeapPageSlots.DeleteKeeps | src/java/simpledb/storage/HeapPage.java:255-262 | the corrected delete keeps the lists valid and, if they agreed with the bitmap, in agreement |
| HeapPageSlots.UsedBitsMark | src/java/simpledb/storage/HeapPage.java:334-337 | marking slot s changes entry s of the bitmap and no other |
| HeapPageSlots.ScanTwo | src/java/simpledb/storage/HeapPage.java:306-321 | the as-written scan of a two-slot page is slot 0's step followed by slot 1's |
| HeapPageSlots.InsertPopsUsedSlot | src/java/simpledb/storage/HeapPage.java:255-321 | as written, eight operations on an empty two-slot page end with an insert into slot 1, which is in use |
| HeapPages.HeapPage.constructor | src/java/simpledb/storage/HeapPage.java:54-60 | a page over a header and slots already read starts with both lists empty, clean, with no dirtier |
| HeapPages.HeapPage.Decode | src/java/simpledb/storage/HeapPage.java:54-78 | the constructor fails exactly when DecodePage does, with the same exception; otherwise the page holds the decoded header and slots, and its before-image is the page's own bytes |
| HeapPages.HeapPage.ReadHeader | src/java/simpledb/storage/HeapPage.java:64-66 | the header is the first h bytes; shorter data is an IOException |
| HeapPages.HeapPage.ReadSlots | src/java/simpledb/storage/HeapPage.java:68-75 | the slots before the one where reading stopped hold what readNextTuple reads; the rest are null |
| HeapPages.ReadSlotsDecode | src/java/simpledb/storage/HeapPage.java:54-78 | slots read in full decode to the page exactly when the page can be written; otherwise both fail with NullPointerException |
| HeapPages.SlotLoopDone | src/java/simpledb/storage/HeapPage.java:68-77 | wherever the slot loop stopped, the slots read are the decoded page's, or decoding and the before-image both fail with NullPointerException |
| HeapPages.StoppedAtShort | src/java/simpledb/storage/HeapPage.java:138-145 | once an empty slot runs past the data, no later slot can be read |
| HeapPages.HeapPage.ReadNextTuple | src/java/simpledb/storage/HeapPage.java:135-164 | an empty slot skips getSize bytes and yields null; a used slot parses the fields in order; running out of bytes or a parse error is NoSuchElementException |
| HeapPages.HeapPage.SkipSlot | src/java/simpledb/storage/HeapPage.java:138-146 | skipping succeeds exactly when the slot's bytes are all there |
| HeapPages.HeapPage.ReadRow | src/java/simpledb/storage/HeapPage.java:149-161 | the loop over the fields reads the record that ParseRow describes and ends after it |
| HeapPages.HeapPage.IsSlotUsed | src/java/simpledb/storage/HeapPage.java:326-329 | the slot's header bit; past the header an index-out-of-bounds failure |
| HeapPages.HeapPage.MarkSlotUsed | src/java/simpledb/storage/HeapPage.java:334-337 | only the slot's header bit changes, to the value |
| HeapPages.HeapPage.GetNumUnusedSlots | src/java/simpledb/storage/HeapPage.java:306-321 | with the corrected cache of Findings row 1: the count of clear slots, equal to the length of the rebuilt cache; the lists afterwards list exactly the used and the clear slots |
| HeapPages.HeapPage.ScanSlots | src/java/simpledb/storage/HeapPage.java:308-320 | the loop, with its byte cursor, performs the corrected scan step by step and counts the clear bits |
| HeapPages.HeapPage.ScanStep | src/java/simpledb/storage/HeapPage.java:309-319 | one pass reads slot i's bit and updates both lists for it, adding a clear slot to the cache only when absent (corrected) |
| HeapPages.HeapPage.InsertTuple | src/java/simpledb/storage/HeapPage.java:272-281 | a full page, or a tuple of another schema, is a DbException that changes no slot; otherwise the head of the corrected cache takes the tuple, becomes used and listed, and the tuple's record id names it; that slot was clear |
| HeapPages.HeapPage.DeleteTuple | src/java/simpledb/storage/HeapPage.java:255-262 | no record id is a NullPointerException; another page object or an empty slot is a DbException; otherwise the slot is cleared and leaves tupleList, and a slot below numSlots joins the corrected cache when absent, keeping the lists exact |
| HeapPages.HeapPage.SlotRecord | src/java/simpledb/storage/HeapPage.java:193-217 | slot i writes getSize zeros when empty and its serialized fields when used; a null tuple or field is a NullPointerException |
| HeapPages.HeapPage.RowRecord | src/java/simpledb/storage/HeapPage.java:208-217 | the field loop writes the serialized fields one after another |
| HeapPages.HeapPage.GetPageData | src/java/simpledb/storage/HeapPage.java:177-236 | the bytes written are EncodePage of the page's contents |
| HeapPages.HeapPage.SlotFails | src/java/simpledb/storage/HeapPage.java:208-217 | one slot whose record cannot be written makes the whole page fail with NullPointerException |
| HeapPages.HeapPage.SetBeforeImage | src/java/simpledb/storage/HeapPage.java:119-123 | the before-image becomes the page's bytes; a failure of getPageData passes through and keeps the old image |
| HeapPages.HeapPage.GetBeforeImage | src/java/simpledb/storage/HeapPage.java:104-117 | a new page decoded from the before-image, failing exactly when that decoding fails; the constructor's IOException is caught as System.exit (SystemExit), other failures escape |
| HeapPages.HeapPage.MarkDirty | src/java/simpledb/storage/HeapPage.java:287-294 | the dirty flag is set, and the dirtying transaction is kept only while dirty |
| HeapPages.HeapPage.Iterator | src/java/simpledb/storage/HeapPage.java:368-371 | after the corrected rescan the iterator yields the tuple of every used slot exactly once, in tupleList's order, and no empty slot |
| HeapPages.Pick | src/java/simpledb/storage/HeapPage.java:340-371 | the iterator's tuples are the slots tupleList names, in its order |
| BTreeHeaderPages.NumSlots | src/java/simpledb/index/BTreeHeaderPage.java:86-97 | eight slots per byte of the page left after the two 4-byte pointers |
| BTreeHeaderPages.DecodeHeaderPageFails | src/java/simpledb/index/BTreeHeaderPage.java:46-74 | the constructor fails exactly for pages under eight bytes and for data too short for the header; otherwise the header has pageSize - 8 bytes |
| BTreeHeaderPages.HeaderRoundTrip | src/java/simpledb/index/BTreeHeaderPage.java:131-178 | the documented invariant: the constructor reads back both pointers and the header that getPageData wrote, and the page is pageSize bytes |
| BTreeHeaderPages.HeaderBytesRoundTrip | src/java/simpledb/index/BTreeHeaderPage.java:46-74 | writing out a decoded page gives back the bytes it was read from |
| BTreeHeaderPages.EmptyHeaderPage | src/java/simpledb/index/BTreeHeaderPage.java:180-192 | an empty page image decodes to a page with no neighbours and every slot free |
| BTreeHeaderPages.SignedByte | src/java/simpledb/index/BTreeHeaderPage.java:307 | Java's int cast of a byte lies in -128..127 and is congruent to the byte modulo 256 |
| BTreeHeaderPages.FullHeader | src/java/simpledb/index/BTreeHeaderPage.java:79-81 | a header of 0xFF bytes has every slot used |
| BTreeHeaderPages.PointerRoundTrip | src/java/simpledb/index/BTreeHeaderPage.java:199-256 | a setter fails exactly for a page of another table or another category; what it accepts the getter returns, except that page number 0 reads back as null |
| BTreeHeaderPages.StoredPointerRoundTrip | src/java/simpledb/index/BTreeHeaderPage.java:199-256 | every pointer the getter can return the setter stores unchanged |
| BTreeHeaderPages.BTreeHeaderPage.Decode | src/java/simpledb/index/BTreeHeaderPage.java:46-74 | the constructor fails exactly when DecodeHeaderPage does, with the same exception; otherwise it holds the decoded pointers and header and its before-image is its own bytes |
| BTreeHeaderPages.BTreeHeaderPage.Init | src/java/simpledb/index/BTreeHeaderPage.java:79-81 | every header byte becomes 0xFF, so every slot is used |
| BTreeHeaderPages.BTreeHeaderPage.GetBeforeImage | src/java/simpledb/index/BTreeHeaderPage.java:103-116 | a new page decoded from the before-image, failing exactly when that decoding fails; the constructor's IOException is caught as System.exit (SystemExit), other failures escape |
| BTreeHeaderPages.BTreeHeaderPage.SetBeforeImage | src/java/simpledb/index/BTreeHeaderPage.java:118-122 | the before-image becomes the page's bytes |
| BTreeHeaderPages.BTreeHeaderPage.GetPageData | src/java/simpledb/index/BTreeHeaderPage.java:142-178 | the next pointer, the previous pointer, then the header bytes, pageSize bytes in all |
| BTreeHeaderPages.BTreeHeaderPage.GetPrevPageId | src/java/simpledb/index/BTreeHeaderPage.java:199-204 | null exactly for pointer 0, otherwise the HEADER page of this table with that number |
| BTreeHeaderPages.BTreeHeaderPage.GetNextPageId | src/java/simpledb/index/BTreeHeaderPage.java:211-216 | null exactly for pointer 0, otherwise the HEADER page of this table with that number |
| BTreeHeaderPages.BTreeHeaderPage.SetPrevPageId | src/java/simpledb/index/BTreeHeaderPage.java:224-236 | null stores 0; another table or a non-HEADER page is a DbException and changes nothing |
| BTreeHeaderPages.BTreeHeaderPage.SetNextPageId | src/java/simpledb/index/BTreeHeaderPage.java:244-256 | null stores 0; another table or a non-HEADER page is a DbException and changes nothing |
| BTreeHeaderPages.BTreeHeaderPage.MarkDirty | src/java/simpledb/index/BTreeHeaderPage.java:262-265 | the flag is set; the dirtier changes only when marking dirty |
| BTreeHeaderPages.BTreeHeaderPage.IsDirty | src/java/simpledb/index/BTreeHeaderPage.java:270-275 | the dirtier while dirty, null while clean |
| BTreeHeaderPages.BTreeHeaderPage.IsSlotUsed | src/java/simpledb/index/BTreeHeaderPage.java:280-284 | bit i % 8 of byte i / 8; past the header an index-out-of-bounds failure |
| BTreeHeaderPages.BTreeHeaderPage.MarkSlotUsed | src/java/simpledb/index/BTreeHeaderPage.java:289-298 | sets or clears slot i's bit and no other; past the header an index-out-of-bounds failure that changes nothing |
| BTreeHeaderPages.BTreeHeaderPage.GetEmptySlot | src/java/simpledb/index/BTreeHeaderPage.java:305-316 | the least unused slot, or -1 exactly when every slot is used |
| Ids.SerializeRoundTrip | src/java/simpledb/storage/LogFile.java:245-290 | a page id read back from the ints it serializes to is the same id |
| Locks.RemoveFirst | src/java/simpledb/transaction/TxLockManager.java:222 | List.remove takes out one occurrence when the element is listed, and nothing otherwise |
| Locks.RemoveFirstUnique | src/java/simpledb/transaction/TxLockManager.java:221-228 | on a list without repeats, one removal takes the transaction out entirely and keeps every other one |
| Locks.AddHolder | src/java/simpledb/transaction/TxLockManager.java:192-200 | the transaction is appended to the page's list, which is created when missing; every other list is kept |
| Locks.AcquireHeld | src/java/simpledb/transaction/TxLockManager.java:78-85 | a request is answered as already held exactly when a read or write lock of the page is strong enough for it; a request that is not granted changes nothing |
| Locks.AcquireRead | src/java/simpledb/transaction/TxLockManager.java:88-114 | a READ_ONLY request is granted exactly when the page has no writer, and then appends the transaction to the page's readers |
| Locks.AcquireWrite | src/java/simpledb/transaction/TxLockManager.java:118-157 | a READ_WRITE request is granted exactly when the page has no writer and no reader other than the requester; the requester is then the page's only writer and no longer a reader |
| Locks.AcquireProvides | src/java/simpledb/transaction/TxLockManager.java:75-167 | whenever the request does not have to wait, the requester then holds a lock strong enough for it |
| Locks.AcquireKeeps | src/java/simpledb/transaction/TxLockManager.java:75-167 | the lock table stays consistent: no list repeats a transaction, a page has at most one writer, and never a writer beside a reader |
| Locks.Drop | src/java/simpledb/transaction/TxLockManager.java:221-228 | the page's list loses one occurrence of the transaction; every other list is kept |
| Locks.ReleaseFrees | src/java/simpledb/transaction/TxLockManager.java:212-235 | releasing fails exactly when the transaction holds no lock on the page; otherwise it then holds none there, everyone else keeps exactly their locks, and the table stays consistent |
| Locks.WithoutOnStep | src/java/simpledb/transaction/TxLockManager.java:251-258 | releasing on one more page of the key-set loop replaces that page's list and nothing else |
| Locks.ReleaseAllFrees | src/java/simpledb/transaction/TxLockManager.java:237-259 | after releaseLock(tid) the transaction holds no lock anywhere, every other transaction keeps its locks, and the table stays consistent |
| Locks.ReleaseAllAt | src/java/simpledb/transaction/TxLockManager.java:237-259 | on each page the lists lose exactly the transaction and keep their shape |
| Locks.TxLockManager.constructor | src/java/simpledb/transaction/TxLockManager.java:64-71 | both lock maps start empty, which is a consistent table |
| Locks.TxLockManager.HasHoldsLock | src/java/simpledb/transaction/TxLockManager.java:263-266 | true exactly when the transaction is listed as the page's writer or reader |
| Locks.TxLockManager.AcquireLock | src/java/simpledb/transaction/TxLockManager.java:75-167 | the new maps and the answer are those of the decision Acquire |
| Locks.TxLockManager.ReleaseLock | src/java/simpledb/transaction/TxLockManager.java:212-235 | the maps become those of Release, or stay unchanged when it fails with TransactionAbortedException |
| Locks.TxLockManager.ReleaseAllLocks | src/java/simpledb/transaction/TxLockManager.java:237-259 | the two key-set loops leave the table ReleaseAll describes |
| Locks.TxLockManager.ReleaseWriteLocks | src/java/simpledb/transaction/TxLockManager.java:251-254 | the first loop takes the transaction out of every writers list and leaves the readers |
| Locks.TxLockManager.ReleaseReadLocks | src/java/simpledb/transaction/TxLockManager.java:255-258 | the second loop takes the transaction out of every readers list and leaves the writers |
| Disks.ReadImage | src/java/simpledb/storage/BufferPool.java:111 | a page never written reads as pageSize zero bytes |
| Disks.Disk.ReadPage | src/java/simpledb/storage/BufferPool.java:111 | readPage yields the image last written for the page |
| Disks.Disk.WritePage | src/java/simpledb/storage/BufferPool.java:288 | writePage changes only that page, which then reads back as the image written |
| BufferPools.Bump | src/java/simpledb/storage/BufferPool.java:102 | a first fetch counts 1 and a later one adds 1; no other page's count changes |
| BufferPools.Evicted | src/java/simpledb/storage/BufferPool.java:330-331 | the evicted page leaves the map and nothing else does |
| BufferPools.VictimExists | src/java/simpledb/storage/BufferPool.java:308-326 | whenever evictPage does not throw, there is a clean page whose count is the least among clean pages |
| BufferPools.LeastClean | src/java/simpledb/storage/BufferPool.java:312-325 | the scan finds a clean page with a count no larger than any clean page's |
| BufferPools.PutDirtyKeys | src/java/simpledb/storage/BufferPool.java:207-241 | after an update the cache holds the ids it held and those the file returned, and each other page is untouched |
| BufferPools.PutDirtyLast | src/java/simpledb/storage/BufferPool.java:210-214 | a returned id holds the last page returned under it, marked dirty by the transaction |
| BufferPools.PutDirtyKeeps | src/java/simpledb/storage/BufferPool.java:207-241 | caching the returned pages keeps every page under its own id and every clean page equal to its disk image |
| BufferPools.DirtyBy | src/java/simpledb/storage/BufferPool.java:297-300 | the pages whose isDirty() is the transaction |
| BufferPools.Dirty | src/java/simpledb/storage/BufferPool.java:249-252 | the pages whose isDirty() is not null |
| BufferPools.FlushWrites | src/java/simpledb/storage/BufferPool.java:284-302 | flushing writes each page's image, marks it clean, keeps every other cached page and disk page, and keeps clean pages equal to the disk |
| BufferPools.AbortRestores | src/java/simpledb/storage/BufferPool.java:182-190 | after the abort re-read, no cached page is dirty by the transaction, each page it dirtied holds the disk's image, and every other page is unchanged |
| BufferPools.DropDirtiersStep | src/java/simpledb/storage/BufferPool.java:256 | one more release in the flushAllPages loop drops one page's dirtier |
| BufferPools.ReleaseIsDrop | src/java/simpledb/storage/BufferPool.java:255-259 | a release whose exception is ignored takes the transaction out of the page's two lists |
| BufferPools.UnlockDirtiersAt | src/java/simpledb/storage/BufferPool.java:248-263 | on each flushed page the lists lose exactly its dirtier; on every other page they are untouched |
| BufferPools.UnlockDirtiersConsistent | src/java/simpledb/storage/BufferPool.java:248-263 | flushAllPages keeps the lock table consistent |
| BufferPools.UnlockDirtiersFrees | src/java/simpledb/storage/BufferPool.java:248-263 | afterwards no flushed page's dirtier holds a lock on it, and every other lock is kept |
| BufferPools.FetchKeeps | src/java/simpledb/storage/BufferPool.java:100-114 | a fetch keeps every page under its id and every clean page equal to the disk |
| BufferPools.InstallKeeps | src/java/simpledb/storage/BufferPool.java:106-113 | a page read from disk, cached clean after an eviction, keeps both invariants |
| BufferPools.FetchReturns | src/java/simpledb/storage/BufferPool.java:100-114 | the page returned is the one left cached under the requested id, and it has a count |
| BufferPools.FetchBound | src/java/simpledb/storage/BufferPool.java:106-108 | a cache holding at most numPages pages never grows beyond numPages |
| BufferPools.BufferPool.constructor | src/java/simpledb/storage/BufferPool.java:54-59 | an empty cache, no counts and an empty lock table |
| BufferPools.BufferPool.GetPage | src/java/simpledb/storage/BufferPool.java:90-115 | the lock is requested first and one that would wait is a TransactionAbortedException that changes nothing else; otherwise the cache lookup, eviction and disk read are those of Fetched, and the pool's invariant and size bound hold |
| BufferPools.BufferPool.Fetch | src/java/simpledb/storage/BufferPool.java:100-114 | with the lock held, the second acquireLock finds it held, and the cache answers as Fetched describes |
| BufferPools.BufferPool.EvictPage | src/java/simpledb/storage/BufferPool.java:308-335 | fails exactly when a clean page has no count (NullPointerException) or no page is clean (DbException); otherwise a least-counted clean page is written and leaves both maps |
| BufferPools.BufferPool.FlushPage | src/java/simpledb/storage/BufferPool.java:284-291 | a cached page is written and marked clean; an uncached id changes nothing |
| BufferPools.BufferPool.HoldsLock | src/java/simpledb/storage/BufferPool.java:146-148 | the lock manager's answer |
| BufferPools.BufferPool.UnsafeReleasePage | src/java/simpledb/storage/BufferPool.java:126-132 | the lock table after releaseLock, or unchanged when the release fails |
| BufferPools.BufferPool.InsertTuple | src/java/simpledb/storage/BufferPool.java:207-215 | an unknown table id is a NoSuchElementException and the file's exception escapes, both changing nothing; otherwise every page the file returned is marked dirty by the transaction and replaces the cached version |
| BufferPools.BufferPool.DeleteTuple | src/java/simpledb/storage/BufferPool.java:230-241 | a tuple without a record id is a NullPointerException; an unknown table id a NoSuchElementException; the file's exception escapes; each failure changes nothing; otherwise every page the file returned is marked dirty by the transaction and replaces the cached version |
| BufferPools.BufferPool.CacheDirtied | src/java/simpledb/storage/BufferPool.java:209-214 | the catalog lookup fails exactly for an unknown table, the file's failure escapes, and on success the returned pages are cached dirty |
| BufferPools.BufferPool.CachePages | src/java/simpledb/storage/BufferPool.java:210-214 | the loop performs PutDirty |
| BufferPools.BufferPool.RemovePage | src/java/simpledb/storage/BufferPool.java:274-277 | the page leaves both maps and nothing is written |
| BufferPools.BufferPool.FlushPages | src/java/simpledb/storage/BufferPool.java:296-302 | exactly the pages the transaction dirtied are written and marked clean |
| BufferPools.BufferPool.FlushIfDirtiedBy | src/java/simpledb/storage/BufferPool.java:298-300 | one pass of the loop flushes the page when the transaction dirtied it |
| BufferPools.BufferPool.FlushAllPages | src/java/simpledb/storage/BufferPool.java:248-263 | every dirty page is written, its dirtier's lock on it released, and it is marked clean |
| BufferPools.BufferPool.FlushIfDirty | src/java/simpledb/storage/BufferPool.java:250-261 | one pass of the loop |
| BufferPools.BufferPool.RecoverAllPages | src/java/simpledb/storage/BufferPool.java:182-190 | each page the transaction dirtied is replaced by a fresh read from disk |
| BufferPools.BufferPool.RecoverIfDirtiedBy | src/java/simpledb/storage/BufferPool.java:184-187 | one pass of the loop |
| BufferPools.BufferPool.TransactionComplete | src/java/simpledb/storage/BufferPool.java:157-180 | a commit flushes the transaction's pages and an abort re-reads them; either way all its locks are then released, and the pool's invariant holds |
| BufferPools.BufferPool.Commit | src/java/simpledb/storage/BufferPool.java:139-141 | transactionComplete(tid) is a commit |
| WriteAheadLog.CheckpointLog | src/java/simpledb/storage/LogFile.java:350-372 | the log logCheckpoint writes is the old log, unchanged, with one CHECKPOINT record after it |
| WriteAheadLog.CountOneMore | src/java/simpledb/storage/LogFile.java:144-145 | the record counter counts one call of preAppend at a time, wrapping as a Java int |
| WriteAheadLog.WriteUncached | src/java/simpledb/storage/LogFile.java:507-514 | writing back a page the pool does not cache keeps every clean cached page equal to its file |
| WriteAheadLog.ProgressNext | src/java/simpledb/storage/LogFile.java:609-611 | rolling back one more waiting loser keeps the undo pass's bookkeeping: the losers done so far, each once, are the keys no longer waiting |
| WriteAheadLog.LogFile.constructor | src/java/simpledb/storage/LogFile.java:125-139 | a new LogFile over a file has read nothing: no current offset, no records counted, recovery undecided, no live transactions |
| WriteAheadLog.LogFile.PreAppend | src/java/simpledb/storage/LogFile.java:144-156 | preAppend counts a record; when recovery was undecided it is now decided and the file is cut down to a header with no checkpoint; records keep their own offsets |
| WriteAheadLog.LogFile.Append | src/java/simpledb/storage/LogFile.java:326-330 | a record written at currentOffset is added at the end of the log and currentOffset moves past its bytes |
| WriteAheadLog.LogFile.LogXactionBegin | src/java/simpledb/storage/LogFile.java:318-333 | a transaction that already began is refused with an IOException and nothing changes; otherwise a BEGIN record is appended at the end of the log, the transaction points at it, and rollback of it finds that BEGIN |
| WriteAheadLog.LogFile.LogCommit | src/java/simpledb/storage/LogFile.java:199-210 | a COMMIT record is appended at the end of the log and the transaction is no longer live |
| WriteAheadLog.LogFile.LogWrite | src/java/simpledb/storage/LogFile.java:221-243 | an UPDATE record with the page's before- and after-image is appended at the end of the log; live transactions are unchanged |
| WriteAheadLog.LogFile.Rollback | src/java/simpledb/storage/LogFile.java:477-542 | rollback fails exactly when the transaction has no first record or it is not a BEGIN, and then writes nothing; otherwise the disk holds the pages the rollback function gives, and every page it touched is dropped from the buffer pool |
| WriteAheadLog.LogFile.UndoFrom | src/java/simpledb/storage/LogFile.java:494-537 | the scan after the BEGIN leaves the disk as the undo function gives and drops from the pool exactly the pages it saw |
| WriteAheadLog.LogFile.RestorePage | src/java/simpledb/storage/LogFile.java:507-514 | one page's file gets its before-image and the page leaves the buffer pool |
| WriteAheadLog.LogFile.LogAbort | src/java/simpledb/storage/LogFile.java:168-191 | abort counts its record, rolls the transaction back, then appends an ABORT record and removes the transaction; a failed rollback leaves the log, the live transactions and the disk as they were |
| WriteAheadLog.LogFile.Outstandings | src/java/simpledb/storage/LogFile.java:345-361 | the list a checkpoint writes names every live transaction once, with its first record |
| WriteAheadLog.LogFile.LogCheckpoint | src/java/simpledb/storage/LogFile.java:338-376 | every dirty page is written and marked clean, the CHECKPOINT record lists the live transactions, the header points at it, and then the log is truncated with the corrected first-record map; a failed truncation leaves the untruncated log; each flushed page's dirtier loses its lock on it, and the LRU map is unchanged |
| WriteAheadLog.LogFile.CheckpointAndTruncate | src/java/simpledb/storage/LogFile.java:345-375 | after the flush: the CHECKPOINT record, then the corrected logTruncate, whose outcome decides the new log |
| WriteAheadLog.LogFile.WriteCheckpoint | src/java/simpledb/storage/LogFile.java:350-372 | the CHECKPOINT record goes at the end of the log and the header points at its start |
| WriteAheadLog.LogFile.LogTruncate | src/java/simpledb/storage/LogFile.java:382-475 | the log becomes the truncation the truncation function gives, with the corrected first-record map of Findings row 5, or is unchanged when that fails; on success every record holds its own new offset |
| WriteAheadLog.LogFile.FindCut | src/java/simpledb/storage/LogFile.java:382-412 | the reads before the copy find the cut the truncation function describes, failing where it fails |
| WriteAheadLog.LogFile.MinLogRecord | src/java/simpledb/storage/LogFile.java:390-410 | minLogRecord is the smallest of the checkpoint's own offset and its listed first records |
| WriteAheadLog.LogFile.CopyRecords | src/java/simpledb/storage/LogFile.java:421-462 | the copy loop writes every record from minLogRecord on, moved to the new file, re-points only still-live transactions at copied BEGINs (corrected), and ends at the end of the new file |
| WriteAheadLog.LogFile.MoveRecord | src/java/simpledb/storage/LogFile.java:424-457 | one record as the copy writes it at its new position: a checkpoint's list relocated, any other record's payload kept |
| WriteAheadLog.LogFile.RelocateEntries | src/java/simpledb/storage/LogFile.java:441-448 | each listed first record of a checkpoint is moved by the truncation's shift |
| WriteAheadLog.LogFile.Recover | src/java/simpledb/storage/LogFile.java:578-629 | recovery keeps the log, decides it, and finds the losers from the checkpoint pointer; a bad pointer is an IOException that changes nothing; otherwise every loser is rolled back once and, if that succeeds, the updates of every other transaction are redone from the start of the log; the undo pass drops from the page map and the LRU map exactly the pages its rollbacks touched |
| WriteAheadLog.LogFile.FindLosers | src/java/simpledb/storage/LogFile.java:583-607 | the losers found are those of the recovered-losers function, whose checkpoint path is the corrected one of Findings row 4 |
| WriteAheadLog.LogFile.ScanLosers | src/java/simpledb/storage/LogFile.java:586-595 | the scan puts BEGINs and removes COMMITs, as the loser function says |
| WriteAheadLog.LogFile.PutEntries | src/java/simpledb/storage/LogFile.java:599-605 | every entry of the checkpoint's list is put into the map, later entries last |
| WriteAheadLog.LogFile.UndoLosers | src/java/simpledb/storage/LogFile.java:609-611 | every loser is rolled back once, in the key set's order, stopping at the first failure; the disk holds what the undo function gives, and exactly the pages those rollbacks touched are dropped from the page map and the LRU map |
| WriteAheadLog.LogFile.RedoPages | src/java/simpledb/storage/LogFile.java:613-625 | each page gets the after-images of updates by transactions that are not losers, as the redo function says, reading CHECKPOINT records whole (corrected, Findings row 2) |
| WriteAheadLog.LogFile.GetTotalRecords | src/java/simpledb/storage/LogFile.java:158-160 | the number of records counted so far |
| LogRecords.EncodeOutstanding | src/java/simpledb/storage/LogFile.java:354-361 | each listed transaction takes 16 bytes: its id and its first record |
| LogRecords.EncodeRecord | src/java/simpledb/storage/LogFile.java:183-185 | each record's bytes are as long as its record size |
| LogRecords.RecordReadsBack | src/java/simpledb/storage/LogFile.java:484-489 | wherever a record sits in the file, readInt at its start gives its type, the next readLong its transaction, and its last eight bytes its start offset |
| LogRecords.SizeAppend | src/java/simpledb/storage/LogFile.java:421-462 | the length of two runs of records is the sum of their lengths |
| LogRecords.OffsetNext | src/java/simpledb/storage/LogFile.java:186 | the next record starts where this one's bytes end |
| LogRecords.OffsetEnd | src/java/simpledb/storage/LogFile.java:153-154 | the offset after the last record is the end of the file |
| LogRecords.OffsetTail | src/java/simpledb/storage/LogFile.java:421-462 | offsets in the tail of a log are offsets in the log, one record on |
| LogRecords.OffsetsIncrease | src/java/simpledb/storage/LogFile.java:186 | every record takes at least 20 bytes, so later records start strictly later |
| LogRecords.OffsetBounds | src/java/simpledb/storage/LogFile.java:421-462 | each record lies between the start of the records and the end of the file |
| LogRecords.IndexAt | src/java/simpledb/storage/LogFile.java:485-486 | the record found at an offset starts there, and when none is found no record starts there |
| LogRecords.IndexAtOffset | src/java/simpledb/storage/LogFile.java:485-486 | the record found at record i's offset is record i |
| LogRecords.AlignedAppend | src/java/simpledb/storage/LogFile.java:183-186 | appending a record that holds the current end keeps every record holding its own offset, and moves the end past it |
| LogRecords.EncodeRecords | src/java/simpledb/storage/LogFile.java:183-243 | records written back to back take exactly their sizes in bytes |
| LogRecords.EncodeLog | src/java/simpledb/storage/LogFile.java:125-156 | the file is the checkpoint pointer (when there is one) and then the records, and its length is the end offset |
| LogRecords.RecordsAppend | src/java/simpledb/storage/LogFile.java:183-243 | writing two runs of records writes one after the other |
| LogRecords.RecordsSplit | src/java/simpledb/storage/LogFile.java:183-243 | a run of records is the ones before record i, record i, and the ones after |
| LogRecords.LogHoldsRecord | src/java/simpledb/storage/LogFile.java:484-489 | the file holds the bytes of record i at record i's offset |
| LogLayout.PageClassName | src/java/simpledb/storage/LogFile.java:257 | a page class name is non-empty and fits writeUTF |
| LogLayout.IdClassName | src/java/simpledb/storage/LogFile.java:258 | an id class name is non-empty and fits writeUTF |
| LogLayout.ClassNamesDiffer | src/java/simpledb/storage/LogFile.java:281-282 | the two page classes, and the two id classes, have different names |
| LogLayout.PageKindNamed | src/java/simpledb/storage/LogFile.java:282 | a page class found by name has that name |
| LogLayout.IdKindNamed | src/java/simpledb/storage/LogFile.java:281 | an id class found by name has that name |
| LogLayout.ClassesNamed | src/java/simpledb/storage/LogFile.java:257-282 | each class is found again by its own name |
| LogLayout.EncodeUTF | src/java/simpledb/storage/LogFile.java:260-261 | writeUTF of a string takes two bytes more than the string |
| LogLayout.DecodeUTF | src/java/simpledb/storage/LogFile.java:277-278 | readUTF never reads past the end of the file |
| LogLayout.EncodeInts | src/java/simpledb/storage/LogFile.java:263-266 | writing n ints takes 4n bytes |
| LogLayout.DecodeInts | src/java/simpledb/storage/LogFile.java:285-289 | reading n ints gives n ints |
| LogLayout.PageDataSize | src/java/simpledb/storage/LogFile.java:245-271 | a page image takes at least one byte |
| LogLayout.EncodePageData | src/java/simpledb/storage/LogFile.java:245-271 | writePageData writes exactly a page image's size |
| LogLayout.EncodePageBody | src/java/simpledb/storage/LogFile.java:263-269 | after the class names: the count, the id's ints, the length and the page bytes |
| LogLayout.ReadFully | src/java/simpledb/storage/LogFile.java:295-296 | reading into an n-byte array gives n bytes and moves at most n bytes on |
| LogLayout.SplitWindow | src/java/simpledb/storage/LogFile.java:273-311 | two writes in a row are read one after the other |
| LogLayout.WindowSlice | src/java/simpledb/storage/LogFile.java:273-311 | bytes written at a position are the bytes found there |
| LogLayout.IntWindow | src/java/simpledb/storage/LogFile.java:285-293 | readInt where writeInt wrote x gives x |
| LogLayout.UTFWindow | src/java/simpledb/storage/LogFile.java:277-278 | readUTF where writeUTF wrote a string gives that string and the position after it |
| LogLayout.IntsWindow | src/java/simpledb/storage/LogFile.java:285-289 | reading n ints where n ints were written gives them back |
| LogLayout.PageBytesWindow | src/java/simpledb/storage/LogFile.java:293-302 | reading the page length and bytes where they were written gives back the page |
| LogLayout.PageBodyWindow | src/java/simpledb/storage/LogFile.java:285-302 | reading the id and page bytes where writePageData wrote them gives back the page and the position after it |
| LogLayout.PageHead | src/java/simpledb/storage/LogFile.java:277-302 | once both class names are read, readPageData's result is the body's |
| LogLayout.PageDataRoundTrip | src/java/simpledb/storage/LogFile.java:245-311 | readPageData reads back the page class, id and bytes writePageData wrote, and stops right after them |
| LogLayout.PageDataReadsBack | src/java/simpledb/storage/LogFile.java:245-311 | whatever comes before and after it in the file, a written page image reads back |
| LogRecovery.LosersAppend | src/java/simpledb/storage/LogFile.java:586-595 | scanning a log in two parts gives the same losers as scanning it whole |
| LogRecovery.LastTouch | src/java/simpledb/storage/LogFile.java:586-595 | the last BEGIN or COMMIT of a transaction, or none when the log has none |
| LogRecovery.LosersLastTouch | src/java/simpledb/storage/LogFile.java:586-595 | a transaction is a loser after the scan exactly when its last BEGIN or COMMIT is a BEGIN (or, if untouched, when it was one before), and it points at that BEGIN |
| LogRecovery.LoserIff | src/java/simpledb/storage/LogFile.java:586-595 | without a checkpoint a transaction is a loser exactly when it has a BEGIN with no later COMMIT; an ABORT does not end it |
| LogRecovery.PutAll | src/java/simpledb/storage/LogFile.java:599-605 | putting a checkpoint's list adds exactly the listed transactions |
| LogRecovery.CheckpointLosersComplete | src/java/simpledb/storage/LogFile.java:596-607 | when the checkpoint's list is what a scan had found by then, starting at the checkpoint and scanning the rest gives the losers of the whole log |
| LogRecovery.RollbackStart | src/java/simpledb/storage/LogFile.java:477-486 | rollback starts at a BEGIN found at the transaction's first record; otherwise it fails with NoSuchElementException or IOException |
| LogRecovery.RollbackStartFails | src/java/simpledb/storage/LogFile.java:482-486 | the failure is NoSuchElementException exactly when the transaction has no first record, and IOException exactly when no BEGIN starts there |
| LogRecovery.UndoNext | src/java/simpledb/storage/LogFile.java:494-537 | the undo scan over one more record is one more step |
| LogRecovery.FirstUpdate | src/java/simpledb/storage/LogFile.java:494-537 | the earliest update of a page by a transaction, or none when there is none |
| LogRecovery.UpdatedBy | src/java/simpledb/storage/LogFile.java:494-537 | exactly the pages the transaction's updates touch |
| LogRecovery.UndoSeen | src/java/simpledb/storage/LogFile.java:507-514 | the pages the rollback has seen grow by exactly the pages the transaction updated |
| LogRecovery.UndoEarliest | src/java/simpledb/storage/LogFile.java:507-514 | each page the transaction updated that was not seen before gets the before-image of its earliest update; every other page keeps its contents |
| LogRecovery.LastRedo | src/java/simpledb/storage/LogFile.java:613-625 | the last update of a page by a transaction that is not a loser, or none |
| LogRecovery.RedoLatest | src/java/simpledb/storage/LogFile.java:613-625 | after redo a page holds the after-image of its last update by a transaction that is not a loser, or what it held before |
| LogRecovery.ListedPutAll | src/java/simpledb/storage/LogFile.java:354-361 | a checkpoint list read back gives the live-transaction map it was written from |
| LogRecovery.ListedNone | src/java/simpledb/storage/LogFile.java:354-361 | an empty list is read back as an empty map |
| LogRecovery.PutAllBack | src/java/simpledb/storage/LogFile.java:599-605 | putting the last entry completes the map |
| LogRecovery.ListedFront | src/java/simpledb/storage/LogFile.java:354-361 | without its last entry a list names the other live transactions |
| LogRecovery.PutAllLast | src/java/simpledb/storage/LogFile.java:599-605 | putting a list is putting all but its last entry, then the last |
| LogRecovery.RecoveredLosers | src/java/simpledb/storage/LogFile.java:578-607 | a bad checkpoint pointer is an IOException; without a checkpoint the losers are those of the whole log; with one, the corrected losers of Findings row 4: the checkpoint's list, then the records after it |
| LogRecovery.RollbackPages | src/java/simpledb/storage/LogFile.java:477-542 | rollback fails exactly when its start does |
| LogRecovery.UndoAllNext | src/java/simpledb/storage/LogFile.java:609-611 | the undo pass over one more loser is its rollback after the others |
| LogRecovery.UndoAllFails | src/java/simpledb/storage/LogFile.java:609-611 | the undo pass fails exactly when some loser's first record is not a BEGIN |
| LogRecovery.PointerAt | src/java/simpledb/storage/LogFile.java:391-397 | a pointer that reaches a record names its start; an IOException means it is negative or at or past the end of the file |
| LogRecovery.MinFirst | src/java/simpledb/storage/LogFile.java:390-410 | minLogRecord is at most the checkpoint's offset and every listed first record, and is one of them |
| LogRecovery.RelocateAll | src/java/simpledb/storage/LogFile.java:441-448 | each listed transaction keeps its id and has its first record shifted |
| LogRecovery.Moved | src/java/simpledb/storage/LogFile.java:424-457 | a copied record starts at its new position and keeps its type and size |
| LogRecovery.Copy | src/java/simpledb/storage/LogFile.java:421-462 | the copy has as many records as it copied |
| LogRecovery.CopyNext | src/java/simpledb/storage/LogFile.java:421-462 | copying one more record appends it, moved to the end of the copy so far |
| LogRecovery.CopySize | src/java/simpledb/storage/LogFile.java:421-462 | the copy takes as many bytes as the records copied |
| LogRecovery.CopyAligned | src/java/simpledb/storage/LogFile.java:421-462 | every copied record holds its new offset, whatever the old file held |
| LogRecovery.CopyAt | src/java/simpledb/storage/LogFile.java:421-462 | record j of the copy is record j of the source, at the same distance from the start |
| LogRecovery.CopyShift | src/java/simpledb/storage/LogFile.java:456 | record j of the copy sits at the relocated offset of the old record it came from |
| LogRecovery.RelocatedPointer | src/java/simpledb/storage/LogFile.java:441-448 | an old offset at or after minLogRecord, relocated, names the copy of the record it named, with the same type |
| LogRecovery.TruncMap | src/java/simpledb/storage/LogFile.java:450-452 | the corrected map of Findings row 5: truncation keeps the set of live transactions |
| LogRecovery.TruncMapNext | src/java/simpledb/storage/LogFile.java:450-452 | one step of the corrected map: a copied BEGIN re-points its transaction only when it is still live |
| LogRecovery.TruncMapRepoints | src/java/simpledb/storage/LogFile.java:450-452 | under the corrected map, each live transaction keeps its old first record or takes the new start of a copied BEGIN of its own |
| LogRecovery.TruncationCut | src/java/simpledb/storage/LogFile.java:382-412 | a cut found names the CHECKPOINT at the header's offset and the record at minLogRecord |
| LogRecovery.Truncate | src/java/simpledb/storage/LogFile.java:382-475 | truncation succeeds exactly when its cut is found; its map is the corrected TruncMap |
| LogRecovery.CopyFrom | src/java/simpledb/storage/LogFile.java:416-462 | the copy from minLogRecord is aligned, keeps every record from there on at its relocated offset, and has the checkpoint at its relocated offset |
| LogRecovery.TruncateRelocates | src/java/simpledb/storage/LogFile.java:382-475 | a truncation keeps the records from minLogRecord on, each at its new offset; the new header points at the relocated checkpoint with its list relocated; every old record from minLogRecord on is named by its relocated offset; under the corrected map the live transactions are kept |
| LogRecovery.ReactPayload | src/java/simpledb/storage/LogFile.java:631-654 | with a CHECKPOINT case, react consumes the whole record after its type and tid |
| LogRecovery.InsideRecord | src/java/simpledb/storage/LogFile.java:631-654 | an offset strictly inside a record starts no record |
| LogRecovery.ReactStopsInsideCheckpoint | src/java/simpledb/storage/LogFile.java:631-654 | as written, a scan past a CHECKPOINT stops inside it and reads its count as the next type |
| LogRecovery.ReactReachesNext | src/java/simpledb/storage/LogFile.java:631-654 | with the CHECKPOINT case every record is consumed whole and the scan reaches the next record or the end |
| LogRecovery.BeginAfterRecoverAsWritten | src/java/simpledb/storage/LogFile.java:581 | as written, a BEGIN logged after recovery records start 0 and its rollback finds no BEGIN there |
| LogRecovery.BeginAfterRecover | src/java/simpledb/storage/LogFile.java:578-629 | with currentOffset at the end of the log, a BEGIN after recovery is found where its transaction points |
| LogRecovery.CommitAfterCheckpoint | src/java/simpledb/storage/LogFile.java:596-607 | a transaction live at the checkpoint that commits after it is a loser as written, and is not one to the scan past the checkpoint or of the whole log |
| LogRecovery.CopyInPlace | src/java/simpledb/storage/LogFile.java:421-462 | cutting an aligned log at its first record rewrites every record as it was |
| LogRecovery.AlignedFront | src/java/simpledb/storage/LogFile.java:421-462 | the records before the last of an aligned log are aligned |
| LogRecovery.MovedInPlace | src/java/simpledb/storage/LogFile.java:424-457 | a record moved to its own offset by a cut at the header is unchanged |
| LogRecovery.CommittedRevived | src/java/simpledb/storage/LogFile.java:450-452 | a transaction that began and committed after minLogRecord comes back as live, as written; the corrected map leaves it out |
| LogRecovery.AsWrittenRevives | src/java/simpledb/storage/LogFile.java:451 | as written, the copy loop puts back a committed transaction's BEGIN |
| LogRecovery.CounterLogAligned | src/java/simpledb/storage/LogFile.java:421-462 | the counterexample log is a log of records at their own offsets |
| Catalogs.ParseField | src/java/simpledb/common/Catalog.java:180-197 | a field entry either parses to a name, a type and a key mark, or ends the process |
| Catalogs.ParseFields | src/java/simpledb/common/Catalog.java:179-198 | the entries give as many names as types, one per entry, and the key is the last field marked pk or the key before any; any bad entry ends the process |
| Catalogs.ParseSchemaLine | src/java/simpledb/common/Catalog.java:172-198 | a line parses to as many names as types and a key that is empty or one of its fields; a line without the brackets ends the process |
| Catalogs.ParseParts | src/java/simpledb/common/Catalog.java:172-198 | the name and the body between the brackets parse to as many names as types and a key among them or empty |
| Catalogs.SchemaDesc | src/java/simpledb/common/Catalog.java:199-201 | the schema built for a parsed line has one field per entry |
| Catalogs.TableId | src/java/simpledb/common/Catalog.java:92-98 | an unknown name is a NoSuchElementException |
| Catalogs.EntryOf | src/java/simpledb/common/Catalog.java:107-113 | an unknown id is a NoSuchElementException |
| Catalogs.AddLookups | src/java/simpledb/common/Catalog.java:63-69 | after addTable the name finds the file's id and the id finds the new entry, everything else is found as before, and the id is appended to the list |
| Catalogs.ParseAll | src/java/simpledb/common/Catalog.java:170-175 | every line of the file is parsed |
| Catalogs.ParsesPrefix | src/java/simpledb/common/Catalog.java:170-205 | the lines before line k are parsed as the whole file's are |
| Catalogs.LoadStaysFailed | src/java/simpledb/common/Catalog.java:206-212 | once a line has ended the process the later lines change nothing |
| Catalogs.LoadFails | src/java/simpledb/common/Catalog.java:164-213 | loading fails exactly when some line does not parse, and then by System.exit |
| Catalogs.LoadSchemaAll | src/java/simpledb/common/Catalog.java:164-213 | a successful load appends one id per line and maps every table name to its file's id |
| Catalogs.LoadStep | src/java/simpledb/common/Catalog.java:170-205 | each line that parses adds its table with the schema built for it |
| Catalogs.ParsedDesc | src/java/simpledb/common/Catalog.java:199-201 | the schema the TupleDesc constructor builds for a parsed line has its names and types |
| Catalogs.TypeWord | src/java/simpledb/common/Catalog.java:182-185 | each type has a word the parser recognises as it |
| Catalogs.FieldParts | src/java/simpledb/common/Catalog.java:175 | a written field list has one entry per field |
| Catalogs.FieldTextSplit | src/java/simpledb/common/Catalog.java:180 | a written field entry splits at spaces into its words |
| Catalogs.FieldTextEnds | src/java/simpledb/common/Catalog.java:180 | a written field entry starts with its name and ends with a letter |
| Catalogs.ParseFieldText | src/java/simpledb/common/Catalog.java:180-197 | a written field entry parses back to its name, type and key mark |
| Catalogs.ParseFieldParts | src/java/simpledb/common/Catalog.java:179-198 | written field entries parse back to the names, the types and the key |
| Catalogs.ParseFieldsCons | src/java/simpledb/common/Catalog.java:179-198 | the entries parse as the first one, then the rest with the key it sets |
| Catalogs.FieldPartsFree | src/java/simpledb/common/Catalog.java:172-175 | no written field entry holds a bracket or a comma |
| Catalogs.FieldTextFree | src/java/simpledb/common/Catalog.java:172-175 | a written field entry holds no bracket or comma |
| Catalogs.LastPart | src/java/simpledb/common/Catalog.java:174 | the last written field entry ends with a letter, so trim keeps it |
| Catalogs.SchemaBody | src/java/simpledb/common/Catalog.java:174-175 | the written body holds no bracket, is kept by trim, and splits at commas into its entries |
| Catalogs.BodyLast | src/java/simpledb/common/Catalog.java:174 | the written body ends with a letter |
| Catalogs.SchemaBrackets | src/java/simpledb/common/Catalog.java:172-174 | in a written line the first ( ends the name and the first ) ends the body |
| Catalogs.ParseSchemaLineRoundTrip | src/java/simpledb/common/Catalog.java:172-198 | a table with word names, one field or more and a key among them or none, written as a schema line, parses back to itself |
| Catalogs.ParseLineOf | src/java/simpledb/common/Catalog.java:172-175 | a line parses as its name and the text between its brackets |
| Catalogs.ParsePartsOf | src/java/simpledb/common/Catalog.java:172-198 | a name and a body parse as the trimmed name and the body's entries |
| Catalogs.Catalog.constructor | src/java/simpledb/common/Catalog.java:47-51 | a new catalog holds no table |
| Catalogs.Catalog.AddTable | src/java/simpledb/common/Catalog.java:63-69 | the catalog becomes the one addTable describes; the name finds the file's id, and the id finds the name, the file, its schema and the key |
| Catalogs.Catalog.AddTableWithoutKey | src/java/simpledb/common/Catalog.java:71-73 | the table is added with an empty primary key |
| Catalogs.Catalog.AddUnnamedTable | src/java/simpledb/common/Catalog.java:83-85 | the table is added under the given name with an empty primary key |
| Catalogs.Catalog.GetTableId | src/java/simpledb/common/Catalog.java:92-98 | a name is found exactly when a table has it |
| Catalogs.Catalog.GetTupleDesc | src/java/simpledb/common/Catalog.java:107-113 | the schema is found exactly when the id is, otherwise NoSuchElementException |
| Catalogs.Catalog.GetDatabaseFile | src/java/simpledb/common/Catalog.java:122-128 | the file is found exactly when the id is, otherwise NoSuchElementException |
| Catalogs.Catalog.GetPrimaryKey | src/java/simpledb/common/Catalog.java:130-136 | the key is found exactly when the id is, otherwise NoSuchElementException |
| Catalogs.Catalog.GetTableName | src/java/simpledb/common/Catalog.java:142-148 | the name is found exactly when the id is, otherwise NoSuchElementException |
| Catalogs.Catalog.Clear | src/java/simpledb/common/Catalog.java:153-157 | no name and no id is found afterwards |
| Catalogs.Catalog.LoadSchema | src/java/simpledb/common/Catalog.java:164-213 | the state and outcome are those of loading the parsed lines in order |
| Catalogs.Catalog.LoadLine | src/java/simpledb/common/Catalog.java:170-205 | one line moves the load from line k to line k + 1 |
| Catalogs.Catalog.AddParsed | src/java/simpledb/common/Catalog.java:199-203 | a parsed line adds its table with the schema built for it |
| Histograms.WrapTo | src/java/simpledb/optimizer/IntHistogram.java:37-45 | a value inside the int range that agrees with x modulo 2^32 is x wrapped |
| Histograms.LayoutFacts | src/java/simpledb/optimizer/IntHistogram.java:36-47 | the bucket count is the smaller of the buckets asked for and max - min + 1 (wrapped); construction succeeds exactly when that is at least 1, a negative count being a NegativeArraySizeException and zero a division by zero; the width is then at least 1 and the buckets cover the range with fewer values left over than buckets |
| Histograms.PositiveDiv | src/java/simpledb/optimizer/IntHistogram.java:45 | for positive operands Java's division is Dafny's, fits an int, and splits the range into whole widths |
| Histograms.ShiftedMin | src/java/simpledb/optimizer/IntHistogram.java:40-43 | a negative min moved up by -min lands on 0 |
| Histograms.RangeFits | src/java/simpledb/optimizer/IntHistogram.java:45 | the width is at least 1 and n widths cover the range, with fewer than n values left over |
| Histograms.LayoutShift | src/java/simpledb/optimizer/IntHistogram.java:37-44 | for bounds in order the shift keeps their distance: the new min is min or 0 and the new max is it plus max - min |
| Histograms.RangeOk | src/java/simpledb/optimizer/IntHistogram.java:37-38 | a histogram built over bounds in order did not wrap its range |
| Histograms.BucketOf | src/java/simpledb/optimizer/IntHistogram.java:49-53 | getBucket is -1 exactly for a shifted value outside the shifted bounds; otherwise it is a bucket whose width-slice holds the value, the last bucket also holding what is left over |
| Histograms.BucketBounds | src/java/simpledb/optimizer/IntHistogram.java:52 | the capped quotient is a bucket starting at or below the offset, ending above it unless it is the last |
| Histograms.BucketInRange | src/java/simpledb/optimizer/IntHistogram.java:36-53 | over bounds in order, getBucket is -1 exactly for values outside [min, max], whatever the shift wraps to |
| Histograms.SumUpdate | src/java/simpledb/optimizer/IntHistogram.java:64 | replacing one count changes the total by the difference |
| Histograms.SumZeros | src/java/simpledb/optimizer/IntHistogram.java:38 | the counts of a new histogram sum to zero |
| Histograms.IntHistogram.Init | src/java/simpledb/optimizer/IntHistogram.java:36-47 | a new histogram has the constructor's shape, all counts zero and no tuples |
| Histograms.IntHistogram.New | src/java/simpledb/optimizer/IntHistogram.java:36-47 | construction fails exactly when the layout does, with the layout's exception; otherwise the histogram has the layout's shape and all counts zero |
| Histograms.IntHistogram.GetBucket | src/java/simpledb/optimizer/IntHistogram.java:49-53 | the bucket is -1 or an index of the counts |
| Histograms.IntHistogram.AddValue | src/java/simpledb/optimizer/IntHistogram.java:60-67 | a value outside the range changes nothing; one inside adds one to its bucket and to ntup, both wrapping as Java ints, and the counts keep summing to ntup |
| Histograms.SumOneMore | src/java/simpledb/optimizer/IntHistogram.java:64-65 | adding one to a count adds one to the wrapped total |
| Aggregators.NewAggSchema | src/java/simpledb/execution/IntegerAggregator.java:50-55 | the output schema is one INT column without grouping, the group type and INT with it |
| Aggregators.IntValueOf | src/java/simpledb/execution/IntegerAggregator.java:70 | the aggregate value is found exactly when the field is an int; a missing field is a NullPointerException and a string a ClassCastException |
| Aggregators.ValuesOfAppend | src/java/simpledb/execution/IntegerAggregator.java:71-77 | merging a value into g adds it at the end of g's values and leaves every other group's alone |
| Aggregators.ValuesOfAppendAll | src/java/simpledb/execution/IntegerAggregator.java:71-77 | the same, for every group at once |
| Aggregators.MinOf | src/java/simpledb/execution/IntegerAggregator.java:129-133 | the minimum is one of the values and no value is smaller |
| Aggregators.MaxOf | src/java/simpledb/execution/IntegerAggregator.java:100-104 | the maximum is one of the values and no value is larger |
| Aggregators.MinStep | src/java/simpledb/execution/IntegerAggregator.java:129-133 | Math.min of the running result and the new value is the minimum of the extended list |
| Aggregators.MaxStep | src/java/simpledb/execution/IntegerAggregator.java:100-104 | Math.max of the running result and the new value is the maximum of the extended list |
| Aggregators.SumStep | src/java/simpledb/execution/IntegerAggregator.java:110-114 | Integer.sum of the running sum and the new value is the wrapped sum of the extended list |
| Aggregators.AvgTruncates | src/java/simpledb/execution/IntegerAggregator.java:119-127 | the average is the wrapped sum divided by the count, truncated toward zero |
| Aggregators.AggregateSingle | src/java/simpledb/execution/IntegerAggregator.java:80-96 | the first value of a group is its result under every operator but COUNT, which gives 1 |
| Aggregators.Appended | src/java/simpledb/execution/IntegerAggregator.java:71-77 | after a merge the group has a list whose last value is the new one |
| Aggregators.MergeKeepsGrouped | src/java/simpledb/execution/IntegerAggregator.java:64-97 | each merge keeps every group's list equal to the values merged into it, in order, and its result the aggregate of that list |
| Aggregators.MergeKeepsResults | src/java/simpledb/execution/IntegerAggregator.java:80-96 | after a merge every stored result is the aggregate of its group's list |
| Aggregators.MergeKeepsLists | src/java/simpledb/execution/IntegerAggregator.java:71-77 | after a merge each list holds the values merged into its group, and groups never merged into have none |
| Aggregators.RunningUpdate | src/java/simpledb/execution/IntegerAggregator.java:80-133 | the running update each operator applies to a group's stored result is the aggregate of the group's extended list |
| Aggregators.IntegerAggregator.constructor | src/java/simpledb/execution/IntegerAggregator.java:43-56 | a new aggregator has no groups and the schema its grouping calls for |
| Aggregators.IntegerAggregator.MergeTupleIntoGroup | src/java/simpledb/execution/IntegerAggregator.java:64-97 | a bad aggregate field throws and changes nothing; otherwise the value joins its group's list and the group's result becomes the aggregate of that list |
| Aggregators.IntegerAggregator.UpdateResult | src/java/simpledb/execution/IntegerAggregator.java:80-96 | the operator's update leaves the group's result at the aggregate of its list |
| Aggregators.IntegerAggregator.AppendValue | src/java/simpledb/execution/IntegerAggregator.java:71-77 | the value joins its group's list, which is created on first use |
| Aggregators.IntegerAggregator.DoMin | src/java/simpledb/execution/IntegerAggregator.java:129-133 | the group's result becomes the smaller of it and the value, or the value for a new group |
| Aggregators.IntegerAggregator.DoMax | src/java/simpledb/execution/IntegerAggregator.java:100-104 | the group's result becomes the larger of it and the value, or the value for a new group |
| Aggregators.IntegerAggregator.DoSum | src/java/simpledb/execution/IntegerAggregator.java:110-114 | the group's result grows by the value, wrapping, or is the value for a new group |
| Aggregators.IntegerAggregator.DoCount | src/java/simpledb/execution/IntegerAggregator.java:106-108 | the group's result is the length of its list |
| Aggregators.IntegerAggregator.DoAvg | src/java/simpledb/execution/IntegerAggregator.java:119-127 | the group's result is the average of its list |
| Aggregators.IntegerAggregator.Open | src/java/simpledb/execution/IntegerAggregator.java:162-176 | the iterator holds one tuple per group, each carrying the group (when grouping) and its result |
| Aggregators.OccurrencesAppendAll | src/java/simpledb/execution/StringAggregator.java:65 | one more tuple in g counts one more for g and changes no other count |
| Aggregators.MergeKeepsCounted | src/java/simpledb/execution/StringAggregator.java:65 | merge(field, 1, a + 1) keeps every count equal to the tuples merged into its group |
| Aggregators.StringAggregator.Init | src/java/simpledb/execution/StringAggregator.java:41-51 | a new aggregator has no groups and the schema its grouping calls for |
| Aggregators.StringAggregator.New | src/java/simpledb/execution/StringAggregator.java:39-52 | any operator but COUNT is an IllegalArgumentException; COUNT gives an aggregator with no groups |
| Aggregators.StringAggregator.MergeTupleIntoGroup | src/java/simpledb/execution/StringAggregator.java:59-66 | a new group's count starts at 1 and an existing one's adds 1, and every count is the number of tuples merged into its group |
| Aggregators.StringAggregator.CountOne | src/java/simpledb/execution/StringAggregator.java:65 | the group's count starts at 1 or adds 1 |
| Aggregators.StringAggregator.Open | src/java/simpledb/execution/StringAggregator.java:86-100 | the iterator holds one tuple per group, each carrying the group (when grouping) and its count |
| Aggregators.SumList | src/java/simpledb/execution/IntegerAggregator.java:121-124 | the loop's sum is the wrapped sum of the list |
| Aggregators.ResultTuples | src/java/simpledb/execution/IntegerAggregator.java:163-174 | one fresh tuple per key of the result map, with the schema and the key's result |
| ByteCodec.IntRoundTrip | src/java/simpledb/storage/LogFile.java:183-185 | readInt where writeInt wrote x gives x, whatever surrounds it |
| ByteCodec.LongRoundTrip | src/java/simpledb/storage/LogFile.java:183-185 | readLong where writeLong wrote x gives x, whatever surrounds it |
| ByteCodec.IntBytesRoundTrip | src/java/simpledb/storage/LogFile.java:484-489 | any four bytes are what writeInt writes for the int readInt makes of them |
| Ids.Serialize | src/java/simpledb/storage/LogFile.java:247 | a heap page id serializes to two ints and a B-tree page id to three, the table id and page number first |
| JavaStrings.IndexOf | src/java/simpledb/common/Catalog.java:172-174 | indexOf is -1 exactly when the character is absent, and otherwise its first position |
| JavaStrings.Substring | src/java/simpledb/common/Catalog.java:172-174 | substring succeeds exactly when 0 <= begin <= end <= length |
| JavaStrings.TrimTrimmed | src/java/simpledb/common/Catalog.java:172-181 | trim keeps a string with no white space at its ends |
| JavaStrings.SplitJoin | src/java/simpledb/common/Catalog.java:175-180 | splitting pieces joined by a delimiter they lack gives the pieces back |
| FieldCodec.ParseSerializeString | src/java/simpledb/storage/HeapPage.java:150-161 | a well-formed string field written out parses back to itself |
| FieldCodec.ParseSerialized | src/java/simpledb/storage/HeapPage.java:150-161 | where a field's bytes sit in a page, parsing there gives the field |

## Left out

- Lock waiting: `waitOrAbort`, `wait`/`notifyAll`, the random back-off and the time budget are concurrency and clock. A request that would wait is the outcome `Blocked`, and `BufferPool.getPage` turns it into `TransactionAbortedException`.
- `TxLockManager.isFirstLock` and the `tx2Page` maps are left out. The grant decision never reads them.
- Thread safety is not modelled: `synchronized`, `ConcurrentHashMap` and the order in which the buffer pool and the log take their monitors.
- Files: `RandomAccessFile` seeks, `force`, `shutdown`, `print` and the temporary file of `logTruncate` are I/O. The log is its header and record list, and the database files are a page store (`Disks`).
- `readPageData`'s reflection is a closed choice between the two page classes of this model. A class name that is neither gives the `ClassNotFoundException` that the source rethrows as an IOException. The model returns the page class, id and bytes read; building the page id and page through their constructors is not modelled, nor are the constructor failures (`InvocationTargetException`, `IllegalAccessException`, `InstantiationException`) that the source also rethrows as an IOException.
- `LogRecovery.RecoveredLosers`: a checkpoint pointer into the middle of a record is treated as reaching no CHECKPOINT record, an IOException. The source would read whatever int lies at that offset.
- `LogRecovery.RecoveredLosers`: on the checkpoint path it models the corrected losers of Findings row 4, the checkpoint's list and then the BEGIN and COMMIT records after it. The source takes the list alone (`LogRecovery.CheckpointLosersAsWritten`, shown by `LogRecovery.CommitAfterCheckpoint`).
- `WriteAheadLog.LogFile.FindLosers`: the same corrected checkpoint path of Findings row 4; the source does not scan past the checkpoint (LogFile.java:596-607).
- `WriteAheadLog.LogFile.RedoPages`: replays the decoded records, so it reads a CHECKPOINT record whole, the corrected `react` of Findings row 2. The source's scan can misread a checkpoint's count as a record type (`LogRecovery.ReactStopsInsideCheckpoint`).
- `LogRecovery.PointerAt`: reports the same case for `logTruncate` as a RuntimeException, the source's error for a non-checkpoint type.
- `LogRecovery.TruncationCut`: a minLogRecord that starts no record (a first record inside another record, or an offset such as the 0 of Findings row 3) is an IOException. The source seeks there and copies whatever it reads.
- `WriteAheadLog.LogFile.Recover`: the redo pass writes files directly, behind the buffer pool's back. So the pool's invariant is stated only for a pool that starts empty, as at start-up.
- `WriteAheadLog.LogFile.Recover`: models the corrected recovery of the Findings below (see the Findings table).
- `HeapPages.HeapPage.GetNumUnusedSlots`: models the corrected cache of Findings row 1: a clear slot is added to `unusedList` only when absent. The source appends it on every call (HeapPage.java:313), so its cache can repeat a slot; that behaviour is `HeapPageSlots.ScanAsWritten`.
- `HeapPages.HeapPage.ScanSlots`: the loop of the corrected cache (Findings row 1), not the source's appending loop.
- `HeapPages.HeapPage.ScanStep`: adds a clear slot only when absent (the corrected cache of Findings row 1), where the source always appends it.
- `HeapPages.HeapPage.InsertTuple`: "the slot taken was clear" holds for the corrected cache of Findings row 1. In the source the head of the cache can be a used slot, which is overwritten (`HeapPageSlots.InsertPopsUsedSlot`).
- `HeapPages.HeapPage.DeleteTuple`: adds the freed slot to the corrected cache when absent and only below numSlots. The source always appends it (HeapPage.java:261), also for a set header bit at or past numSlots, which a later insert could then pop, indexing past the slot array.
- `HeapPages.HeapPage.Iterator`: "every used slot exactly once" holds for the corrected cache of Findings row 1. In the source a slot popped twice is listed twice in `tupleList`, and its tuple is returned twice.
- `WriteAheadLog.LogFile.LogTruncate`: models the corrected first-record map of Findings row 5 (`LogRecovery.TruncMap`): a copied BEGIN re-points only a transaction that is still live. The source puts every copied BEGIN (LogFile.java:450-452), which makes committed transactions live again; that map is `LogRecovery.TruncMapAsWritten`.
- `WriteAheadLog.LogFile.CopyRecords`: the copy loop with the corrected map of Findings row 5, not the source's put of every copied BEGIN.
- `WriteAheadLog.LogFile.LogCheckpoint`: truncates with the corrected map of Findings row 5, so a committed transaction is never listed by a later checkpoint, as it can be in the source.
- `WriteAheadLog.LogFile.CheckpointAndTruncate`: the same corrected truncation (Findings row 5).
- `LogRecovery.Truncate`: the truncation function returns the corrected map `TruncMap` of Findings row 5, not the source's.
- `LogRecovery.TruncateRelocates`: "the live transactions are kept" holds for the corrected map of Findings row 5. As written, truncation also revives committed transactions (`LogRecovery.AsWrittenRevives`).
- `WriteAheadLog.LogFile.Rollback`: the file pointer is not modelled. A rollback that fails on a first record that is not a BEGIN has moved the pointer to 4 bytes past that record's start (LogFile.java:483-485), and `preAppend` does not seek back, so the source's next append overwrites the log from there. The model appends at the end.
- `rollback(TransactionId)` is `rollback(tid.getId())`, modelled once as `WriteAheadLog.LogFile.Rollback`.
- The iteration order of Java's `HashMap` and `HashSet` key sets is not modelled. Where the source iterates a key set, the model's contract holds for the order it returns: the checkpoint list, the undo order of recovery, and the aggregator iterators.
- `Type`, `IntField` and `StringField` are not part of this model.
  - Field bytes use a stand-in codec: a 4-byte big-endian int, and a string as its length then its characters, zero padded.
  - The page proofs rely only on each type having a fixed width and on well-formed fields reading back.
- Strings are sequences of characters without Unicode case folding. `equalsIgnoreCase` of the catalog parser is modelled for the ASCII words it compares with.
- `HeapFile` is not part of this model; its `writePage` is a stub in the repository. The buffer pool and the log write through the page store instead. The answer of a file's `insertTuple`/`deleteTuple`, the pages it dirtied or the exception it threw, is a parameter.
- `IntHistogram`: `estimateSelectivity`, its helpers, `avgSelectivity` and `toString` compute in floating point, which is not modelled.
- `TableStats`, `Aggregate`, `Delete` and `Aggregator` are not part of this model.
- Iterator cursors are left out: `hasNext`, `next`, `rewind`, `close` of every iterator. The model gives the sequence an iterator walks.
- `toString`, `hashCode`, `Debug.log` and console output are left out. They only format or print.
- Catalog file reading is left out: the schema file is given as its lines. The table id of each loaded table, the hash of its `HeapFile`'s absolute path in the source, is a parameter; so is the random UUID name that `addTable(file)` gives a table. `System.exit` is the error `SystemExit`.
- Slot indexes (`RecordId.tupleNumber`, and the index of `isSlotUsed`/`markSlotUsed` on `HeapPage` and `BTreeHeaderPage`) are natural numbers. The source takes a Java `int`: an index from -1 to -7 reads header byte 0 through Java's truncating division and masked shift, so its answer depends on that byte's sign-extended bits, and an index of -8 or below is an ArrayIndexOutOfBoundsException. The model cannot express a negative slot index.
- `IntegerAggregator` and `StringAggregator` with a group-by field but a null `gbfieldtype` are not modelled. The output schema is built from a type.
- `HeapPage.deleteTuple` adds the freed slot to a list named `unused` that the file does not declare. The model reads it as `unusedList`, the only list of that kind on the page.
- Java object identity matters only where the source compares by reference: `HeapPage.deleteTuple` compares page ids with `!=`, modelled with `Ids.PageIdObject`. Everywhere else ids, tuples and pages are values. In the source `getPage` returns the cached page object, and a caller that changes it changes the cached page; the model's cache holds page values, and a changed page goes back through an explicit put.

## Findings

| source | as written | input that shows it | evidently intended | confidence | as-written member | corrected member |
|---|---|---|---|---|---|---|
| src/java/simpledb/storage/HeapPage.java:306-321 | `getNumUnusedSlots` appends every clear slot to `unusedList` on each call, whether or not it is already there, and `deleteTuple` appends the freed slot again. A stale entry for a slot stays after the slot is refilled. | a page of two slots, empty at first: insert, delete slot 0, insert, insert, delete slot 0, insert, delete slot 0, insert. The last insert pops slot 1, which holds a tuple, and overwrites it. | the cache holds each clear slot exactly once, so `insertTuple` always takes a clear slot | not executed | HeapPageSlots.InsertPopsUsedSlot | HeapPageSlots.ScanCaches |
| src/java/simpledb/storage/LogFile.java:631-654 | `react` has no CHECKPOINT case, so after a checkpoint's type and tid it consumes nothing, and the next `readInt` reads the checkpoint's count as a record type | a log with a CHECKPOINT record that lists at least one live transaction in front of the recovery scan: the scan then reads the list's bytes as records. With an empty list it misreads the count and the trailing offset but is back in step at the next record | a CHECKPOINT case that reads the count, the list and the trailing offset, as `rollback` does at lines 515-533 | not executed | LogRecovery.ReactStopsInsideCheckpoint | LogRecovery.ReactReachesNext |
| src/java/simpledb/storage/LogFile.java:581 | `recover` sets `currentOffset` to 0 and never moves it back to the end of the file | `recover`, then `logXactionBegin(t)`: the map records 0 as t's first record, and `rollback(t)` then finds no BEGIN there (IOException) | `currentOffset` at the end of the log once recovery is done | not executed | LogRecovery.BeginAfterRecoverAsWritten | LogRecovery.BeginAfterRecover |
| src/java/simpledb/storage/LogFile.java:596-607 | on the checkpoint path `recover` takes the checkpoint's list as the losers and never looks at the records after the checkpoint | BEGIN 7, a CHECKPOINT listing 7, COMMIT 7: transaction 7 is rolled back and its updates are not redone, although it committed | the checkpoint's list, then the BEGIN and COMMIT records after the checkpoint, as on the path without a checkpoint | not executed | LogRecovery.CommitAfterCheckpoint | LogRecovery.CheckpointLosersComplete |
| src/java/simpledb/storage/LogFile.java:450-452 | the copy loop of `logTruncate` puts every copied BEGIN into `tidToFirstLogRecord`, including the BEGINs of transactions that have already committed | BEGIN 1, BEGIN 2, COMMIT 2, a CHECKPOINT listing 1: after the truncation transaction 2 is live again, and the next checkpoint lists it | a copied BEGIN only re-points a transaction that is still live | not executed | LogRecovery.AsWrittenRevives | LogRecovery.TruncMap |
