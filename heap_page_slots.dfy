/**
 * The slot lists a HeapPage keeps beside its header bitmap: tupleList (the
 * used slots, for the iterator) and unusedList (a cache of clear slots that
 * insertTuple pops from). getNumUnusedSlots rebuilds both from the bitmap.
 *
 * As written, a clear slot is appended to unusedList on every scan and on
 * every delete, with no test for an entry already there, so the cache fills
 * with duplicates; a later insert can then pop a slot that an earlier insert
 * has filled since. The as-written scan and its counterexample are here; the
 * corrected scan adds a slot only when it is not listed, and keeps the cache
 * exactly the set of clear slots.
 */
module HeapPageSlots {
  import opened Wrappers
  import opened Bits
  import opened HeapPageFormat

  datatype SlotLists = SlotLists(tupleList: seq<nat>, unusedList: seq<nat>)

  /** List.remove(Object): the first occurrence of x dropped. */
  function Remove(s: seq<nat>, x: nat): (r: seq<nat>)
    ensures x !in s ==> r == s
  {
    if |s| == 0 then []
    else if s[0] == x then s[1..]
    else
      assert s == [s[0]] + s[1..];
      [s[0]] + Remove(s[1..], x)
  }

  /** x appended unless it is already listed. */
  function AddOnce(s: seq<nat>, x: nat): (r: seq<nat>)
    ensures x in r
    ensures forall y :: y in r <==> y in s || y == x
  {
    if x in s then s else s + [x]
  }

  /** The first n slot bits of a header, as booleans: true for a used slot. */
  function UsedBits(header: seq<byte>, n: nat): (r: seq<bool>)
    requires n <= 8 * |header|
    ensures |r| == n
  {
    if n == 0 then [] else UsedBits(header, n - 1) + [SlotUsed(header, n - 1)]
  }

  /** Slot i of the bitmap is the header's bit for slot i. */
  lemma {:induction false} UsedBitsAt(header: seq<byte>, n: nat, i: nat)
    requires i < n <= 8 * |header|
    ensures UsedBits(header, n)[i] == SlotUsed(header, i)
  {
    if i < n - 1 {
      UsedBitsAt(header, n - 1, i);
    }
  }

  lemma {:induction false} UsedBitsAll(header: seq<byte>, n: nat)
    requires n <= 8 * |header|
    ensures forall i :: 0 <= i < n ==> UsedBits(header, n)[i] == SlotUsed(header, i)
  {
    forall i | 0 <= i < n
      ensures UsedBits(header, n)[i] == SlotUsed(header, i)
    {
      UsedBitsAt(header, n, i);
    }
  }

  /** How many slots of a bitmap are clear. */
  function CountFree(used: seq<bool>): (c: nat)
    ensures c <= |used|
  {
    if |used| == 0 then 0 else CountFree(used[..|used| - 1]) + (if used[|used| - 1] then 0 else 1)
  }

  /** The header's count of clear slots is the bitmap's. */
  lemma {:induction false} CountClearBits(header: seq<byte>, n: nat)
    requires n <= 8 * |header|
    ensures CountClear(header, n) == CountFree(UsedBits(header, n))
  {
    if n > 0 {
      CountClearBits(header, n - 1);
      assert UsedBits(header, n)[..n - 1] == UsedBits(header, n - 1);
    }
  }

  lemma {:induction false} CountFreeStep(used: seq<bool>, i: nat)
    requires i < |used|
    ensures CountFree(used[..i + 1]) == CountFree(used[..i]) + (if used[i] then 0 else 1)
  {
    assert used[..i + 1][..i] == used[..i];
  }

  /** Bit i % 8 of header byte i / 8 is slot i of the bitmap. */
  lemma {:induction false} BitAt(header: seq<byte>, n: nat, i: nat, index: int)
    requires i < n <= 8 * |header| && index == i / 8
    ensures 0 <= index < |header|
    ensures GetBit(header[index], i % 8) == (if UsedBits(header, n)[i] then 1 else 0)
  {
    UsedBitsAt(header, n, i);
  }

  /** The slots below n that are clear. */
  function ClearSlots(used: seq<bool>, n: nat): (r: set<nat>)
    requires n <= |used|
    ensures forall x: nat :: x in r <==> x < n && !used[x]
  {
    set x: nat | x < n && !used[x]
  }

  /** What insertTuple relies on: unusedList lists clear slots of the page, each once. */
  predicate CacheValid(used: seq<bool>, unused: seq<nat>, n: nat)
    requires n <= |used|
  {
    Distinct(unused) && forall x :: x in unused ==> x < n && !used[x]
  }

  /** One step of getNumUnusedSlots as written: a clear slot is appended even when already listed. */
  function ScanSlotAsWritten(used: seq<bool>, l: SlotLists, i: nat): SlotLists
    requires i < |used|
  {
    if !used[i] then SlotLists(Remove(l.tupleList, i), l.unusedList + [i])
    else if i !in l.tupleList then SlotLists(l.tupleList + [i], Remove(l.unusedList, i))
    else l
  }

  /** getNumUnusedSlots as written, over the first n slots. */
  function ScanAsWritten(used: seq<bool>, l: SlotLists, n: nat): SlotLists
    requires n <= |used|
  {
    if n == 0 then l else ScanSlotAsWritten(used, ScanAsWritten(used, l, n - 1), n - 1)
  }

  /** One step of the corrected getNumUnusedSlots: a clear slot is added only when it is not listed. */
  function ScanSlot(used: seq<bool>, l: SlotLists, i: nat): SlotLists
    requires i < |used|
  {
    if !used[i] then SlotLists(Remove(l.tupleList, i), AddOnce(l.unusedList, i))
    else if i !in l.tupleList then SlotLists(l.tupleList + [i], Remove(l.unusedList, i))
    else l
  }

  /** The corrected getNumUnusedSlots over the first n slots. */
  function Scan(used: seq<bool>, l: SlotLists, n: nat): SlotLists
    requires n <= |used|
  {
    if n == 0 then l else ScanSlot(used, Scan(used, l, n - 1), n - 1)
  }

  lemma {:induction false} RemoveKeepsDistinct(s: seq<nat>, x: nat)
    requires Distinct(s)
    ensures Distinct(Remove(s, x)) && forall y :: y in Remove(s, x) <==> y in s && y != x
  {
    if |s| > 0 {
      DistinctTail(s);
      if s[0] != x {
        RemoveKeepsDistinct(s[1..], x);
        DistinctCons(s[0], Remove(s[1..], x));
        assert s == [s[0]] + s[1..];
      }
    }
  }

  /** The tail of a distinct list is distinct and lacks the head. */
  lemma {:induction false} DistinctTail(s: seq<nat>)
    requires Distinct(s) && |s| > 0
    ensures Distinct(s[1..]) && s[0] !in s[1..]
  {
    var tail := s[1..];
    assert forall i :: 0 <= i < |tail| ==> tail[i] == s[i + 1];
  }

  /** Prepending an element the list lacks keeps it distinct. */
  lemma {:induction false} DistinctCons(a: nat, r: seq<nat>)
    requires Distinct(r) && a !in r
    ensures Distinct([a] + r)
  {
    var t := [a] + r;
    forall i, j | 0 <= i < j < |t|
      ensures t[i] != t[j]
    {
      assert t[j] == r[j - 1];
      if i > 0 {
        assert t[i] == r[i - 1];
      }
    }
  }

  /** AddOnce keeps a list of distinct entries distinct. */
  lemma {:induction false} AddOnceKeepsDistinct(s: seq<nat>, x: nat)
    requires Distinct(s)
    ensures Distinct(AddOnce(s, x))
  {
    if x !in s {
      DistinctAppend(s, x);
    }
  }

  /** Both lists hold distinct slots of the page, and the cache only clear ones. */
  predicate ListsValid(used: seq<bool>, l: SlotLists, n: nat)
    requires n <= |used|
  {
    CacheValid(used, l.unusedList, n) && Distinct(l.tupleList) && forall x :: x in l.tupleList ==> x < n
  }

  /** The lists agree with the bitmap on the slots below k: tupleList the used, unusedList the clear. */
  predicate Synced(used: seq<bool>, l: SlotLists, k: nat)
    requires k <= |used|
  {
    forall x: nat :: x < k ==> (x in l.tupleList <==> used[x]) && (x in l.unusedList <==> !used[x])
  }

  /** One corrected step keeps both lists valid and brings slot i into agreement. */
  lemma {:induction false} ScanSlotKeeps(used: seq<bool>, l: SlotLists, i: nat, n: nat)
    requires i < n <= |used|
    requires ListsValid(used, l, n) && Synced(used, l, i)
    ensures ListsValid(used, ScanSlot(used, l, i), n) && Synced(used, ScanSlot(used, l, i), i + 1)
  {
    var r := ScanSlot(used, l, i);
    if !used[i] {
      AddOnceKeepsDistinct(l.unusedList, i);
      RemoveKeepsDistinct(l.tupleList, i);
    } else if i !in l.tupleList {
      var t := l.tupleList + [i];
      assert forall a :: 0 <= a < |l.tupleList| ==> t[a] == l.tupleList[a];
      assert t[|l.tupleList|] == i;
      assert i !in l.unusedList;
      assert r.unusedList == l.unusedList;
    } else {
      assert i !in l.unusedList;
    }
  }

  /** Scanning the first k slots keeps both lists valid and brings those k slots into agreement. */
  lemma {:induction false} ScanPrefix(used: seq<bool>, l: SlotLists, k: nat, n: nat)
    requires k <= n <= |used|
    requires ListsValid(used, l, n)
    ensures ListsValid(used, Scan(used, l, k), n) && Synced(used, Scan(used, l, k), k)
  {
    if k > 0 {
      ScanPrefix(used, l, k - 1, n);
      ScanSlotKeeps(used, Scan(used, l, k - 1), k - 1, n);
    }
  }

  /** The entries of a list, as a set. */
  function Elements(s: seq<nat>): (r: set<nat>)
    ensures forall x :: x in r <==> x in s
  {
    set x | x in s
  }

  /** A list of distinct entries has as many entries as it has elements. */
  lemma {:induction false} DistinctCard(s: seq<nat>)
    requires Distinct(s)
    ensures |Elements(s)| == |s|
  {
    if |s| > 0 {
      var t := s[..|s| - 1];
      var last := s[|s| - 1];
      assert forall i :: 0 <= i < |t| ==> t[i] == s[i];
      assert Distinct(t);
      DistinctCard(t);
      assert s == t + [last];
      assert last !in t;
      assert Elements(s) == Elements(t) + {last};
    }
  }

  /** There are CountFree clear slots below n. */
  lemma {:induction false} ClearSlotsCount(used: seq<bool>, n: nat)
    requires n <= |used|
    ensures |ClearSlots(used, n)| == CountFree(used[..n])
  {
    if n > 0 {
      ClearSlotsCount(used, n - 1);
      assert used[..n][..n - 1] == used[..n - 1];
      if used[n - 1] {
        assert ClearSlots(used, n) == ClearSlots(used, n - 1);
      } else {
        assert ClearSlots(used, n) == ClearSlots(used, n - 1) + {n - 1};
      }
    }
  }

  /**
   * The corrected getNumUnusedSlots leaves tupleList holding each used slot and
   * unusedList each clear slot, exactly once, so the cache is as long as the
   * count the method returns.
   */
  lemma {:induction false} ScanCaches(used: seq<bool>, l: SlotLists, n: nat)
    requires n <= |used|
    requires ListsValid(used, l, n)
    ensures ListsValid(used, Scan(used, l, n), n) && Synced(used, Scan(used, l, n), n)
    ensures |Scan(used, l, n).unusedList| == CountFree(used[..n])
  {
    ScanPrefix(used, l, n, n);
    var u := Scan(used, l, n).unusedList;
    DistinctCard(u);
    assert Elements(u) == ClearSlots(used, n);
    ClearSlotsCount(used, n);
  }

  /** insertTuple after the rescan: the head of the cache is a clear slot; taking it keeps the lists valid. */
  lemma {:induction false} PopKeeps(used: seq<bool>, l: SlotLists, n: nat)
    requires n <= |used| && ListsValid(used, l, n) && Synced(used, l, n) && |l.unusedList| > 0
    ensures var s := l.unusedList[0];
            s < n && !used[s] && s !in l.tupleList &&
            ListsValid(used[s := true], SlotLists(l.tupleList + [s], l.unusedList[1..]), n) &&
            Synced(used[s := true], SlotLists(l.tupleList + [s], l.unusedList[1..]), n)
  {
    var u := l.unusedList;
    var s := u[0];
    assert s in u;
    var rest := u[1..];
    assert forall a :: 0 <= a < |rest| ==> rest[a] == u[a + 1];
    assert forall x :: x in rest ==> x != s by {
      forall x | x in rest
        ensures x != s
      {
        var a :| 0 <= a < |rest| && rest[a] == x;
        assert u[a + 1] == x;
      }
    }
    assert forall x :: x in u <==> x == s || x in rest by {
      assert u == [s] + rest;
    }
    var t := l.tupleList + [s];
    assert forall a :: 0 <= a < |l.tupleList| ==> t[a] == l.tupleList[a];
    assert t[|l.tupleList|] == s;
  }

  /** The corrected deleteTuple: a used slot is cleared, dropped from tupleList and cached once. */
  function DeleteSlot(l: SlotLists, s: nat, n: nat): SlotLists
  {
    SlotLists(Remove(l.tupleList, s), if s < n then AddOnce(l.unusedList, s) else l.unusedList)
  }

  /** Deleting a used slot keeps the lists valid and in agreement. */
  lemma {:induction false} DeleteKeeps(used: seq<bool>, l: SlotLists, s: nat, n: nat)
    requires n <= |used| && s < |used| && used[s] && ListsValid(used, l, n)
    ensures ListsValid(used[s := false], DeleteSlot(l, s, n), n)
    ensures Synced(used, l, n) ==> Synced(used[s := false], DeleteSlot(l, s, n), n)
  {
    RemoveKeepsDistinct(l.tupleList, s);
    AddOnceKeepsDistinct(l.unusedList, s);
  }

  /** Marking slot s of a header changes its bit and no other in the bitmap. */
  lemma {:induction false} UsedBitsMark(header: seq<byte>, n: nat, s: nat, v: bool)
    requires n <= 8 * |header| && s < 8 * |header|
    ensures UsedBits(MarkSlot(header, s, v), n) == if s < n then UsedBits(header, n)[s := v] else UsedBits(header, n)
  {
    UsedBitsAll(header, n);
    UsedBitsAll(MarkSlot(header, s, v), n);
  }

  /** The slot bitmap and slot lists of a page, as values. */
  datatype Book = Book(used: seq<bool>, lists: SlotLists)

  /**
   * insertTuple as written, on the bookkeeping alone: rescan, then pop the head
   * of unusedList, mark it used and list it in tupleList. The popped slot, if any,
   * is returned.
   */
  function InsertAsWritten(b: Book): (r: (Book, Option<nat>))
  {
    var l := ScanAsWritten(b.used, b.lists, |b.used|);
    if CountFree(b.used) == 0 || |l.unusedList| == 0 then (Book(b.used, l), None)
    else
      var slot := l.unusedList[0];
      if slot >= |b.used| then (Book(b.used, l), None)
      else (Book(b.used[slot := true], SlotLists(l.tupleList + [slot], l.unusedList[1..])), Some(slot))
  }

  /** deleteTuple as written, for a used slot: clear it, drop it from tupleList, append it to unusedList. */
  function DeleteAsWritten(b: Book, slot: nat): Book
    requires slot < |b.used|
  {
    Book(b.used[slot := false], SlotLists(Remove(b.lists.tupleList, slot), b.lists.unusedList + [slot]))
  }

  /** A scan of a two-slot page: slot 0, then slot 1. */
  lemma {:induction false} ScanTwo(used: seq<bool>, l: SlotLists)
    requires |used| == 2
    ensures ScanAsWritten(used, l, 2) == ScanSlotAsWritten(used, ScanSlotAsWritten(used, l, 0), 1)
  {
    assert ScanAsWritten(used, l, 1) == ScanSlotAsWritten(used, l, 0);
  }

  /** The first insert on an empty two-slot page takes slot 0 and leaves [1] cached. */
  lemma {:induction false} FirstInsert()
    ensures InsertAsWritten(Book([false, false], SlotLists([], []))) == (Book([true, false], SlotLists([0], [1])), Some(0))
  {
    var u := [false, false];
    ScanTwo(u, SlotLists([], []));
    assert ScanSlotAsWritten(u, SlotLists([], []), 0) == SlotLists([], [0]);
    assert ScanSlotAsWritten(u, SlotLists([], [0]), 1) == SlotLists([], [0, 1]);
    assert CountFree(u) == 2 by {
      assert u[..1] == [false];
      assert [false][..0] == [];
    }
    assert [0, 1][1..] == [1];
    assert u[0 := true] == [true, false];
  }

  /** After slot 0 is deleted, the next insert rescans and takes slot 1. */
  lemma {:induction false} SecondInsert()
    ensures InsertAsWritten(Book([false, false], SlotLists([], [1, 0]))) == (Book([false, true], SlotLists([1], [0, 0, 1])), Some(1))
  {
    var u := [false, false];
    ScanTwo(u, SlotLists([], [1, 0]));
    assert ScanSlotAsWritten(u, SlotLists([], [1, 0]), 0) == SlotLists([], [1, 0, 0]);
    assert ScanSlotAsWritten(u, SlotLists([], [1, 0, 0]), 1) == SlotLists([], [1, 0, 0, 1]);
    assert CountFree(u) == 2 by {
      assert u[..1] == [false];
      assert [false][..0] == [];
    }
    var l := ScanAsWritten(u, SlotLists([], [1, 0]), 2);
    assert l == SlotLists([], [1, 0, 0, 1]);
    assert l.unusedList[0] == 1;
    assert l.unusedList[1..] == [0, 0, 1];
    assert l.tupleList + [1] == [1];
    assert u[1 := true] == [false, true];
  }

  /**
   * With slot 1 used and listed, an insert appends slot 0 to the cache once more
   * and takes slot 0: the cache then is `tail` with one more 0 at its end.
   */
  lemma {:induction false} InsertAtZero(tail: seq<nat>)
    ensures InsertAsWritten(Book([false, true], SlotLists([1], [0] + tail))) == (Book([true, true], SlotLists([1, 0], tail + [0])), Some(0))
  {
    var u := [false, true];
    var l := SlotLists([1], [0] + tail);
    ScanTwo(u, l);
    assert Remove([1], 0) == [1];
    var l0 := SlotLists([1], [0] + tail + [0]);
    assert ScanSlotAsWritten(u, l, 0) == l0;
    assert ScanSlotAsWritten(u, l0, 1) == l0;
    assert CountFree(u) == 1 by {
      assert u[..1] == [false];
      assert [false][..0] == [];
    }
    var s := ScanAsWritten(u, l, 2);
    assert s == l0;
    assert s.unusedList[0] == 0;
    assert s.unusedList[1..] == tail + [0];
    assert s.tupleList + [0] == [1, 0];
    assert u[0 := true] == [true, true];
  }

  /** Deleting slot 0 of a full two-slot page whose tupleList is [1, 0]. */
  lemma {:induction false} DeleteZero(cache: seq<nat>)
    ensures DeleteAsWritten(Book([true, true], SlotLists([1, 0], cache)), 0) == Book([false, true], SlotLists([1], cache + [0]))
  {
    assert Remove([1, 0], 0) == [1] by {
      assert Remove([0], 0) == [];
    }
    assert [true, true][0 := false] == [false, true];
  }

  /** With slot 1 used and listed and 1 at the head of the cache, an insert takes slot 1 again. */
  lemma {:induction false} InsertAtOne(tail: seq<nat>)
    ensures InsertAsWritten(Book([false, true], SlotLists([1], [1] + tail))).1 == Some(1)
  {
    var u := [false, true];
    var l := SlotLists([1], [1] + tail);
    ScanTwo(u, l);
    assert Remove([1], 0) == [1];
    var l0 := SlotLists([1], [1] + tail + [0]);
    assert ScanSlotAsWritten(u, l, 0) == l0;
    assert ScanSlotAsWritten(u, l0, 1) == l0;
    assert CountFree(u) == 1 by {
      assert u[..1] == [false];
      assert [false][..0] == [];
    }
    var s := ScanAsWritten(u, l, 2);
    assert s == l0;
    assert s.unusedList[0] == 1;
  }

  /** The trace below, one operation at a time. */
  lemma {:induction false} FirstDelete()
    ensures DeleteAsWritten(Book([true, false], SlotLists([0], [1])), 0) == Book([false, false], SlotLists([], [1, 0]))
  {
    assert Remove([0], 0) == [];
    assert [true, false][0 := false] == [false, false];
    assert [1] + [0] == [1, 0];
  }

  lemma {:induction false} ThirdInsert()
    ensures InsertAsWritten(Book([false, true], SlotLists([1], [0, 0, 1]))).0 == Book([true, true], SlotLists([1, 0], [0, 1, 0]))
  {
    InsertAtZero([0, 1]);
    assert [0, 0, 1] == [0] + [0, 1];
    assert [0, 1] + [0] == [0, 1, 0];
  }

  lemma {:induction false} SecondDelete()
    ensures DeleteAsWritten(Book([true, true], SlotLists([1, 0], [0, 1, 0])), 0) == Book([false, true], SlotLists([1], [0, 1, 0, 0]))
  {
    DeleteZero([0, 1, 0]);
    assert [0, 1, 0] + [0] == [0, 1, 0, 0];
  }

  lemma {:induction false} FourthInsert()
    ensures InsertAsWritten(Book([false, true], SlotLists([1], [0, 1, 0, 0]))).0 == Book([true, true], SlotLists([1, 0], [1, 0, 0, 0]))
  {
    InsertAtZero([1, 0, 0]);
    assert [0, 1, 0, 0] == [0] + [1, 0, 0];
    assert [1, 0, 0] + [0] == [1, 0, 0, 0];
  }

  lemma {:induction false} ThirdDelete()
    ensures DeleteAsWritten(Book([true, true], SlotLists([1, 0], [1, 0, 0, 0])), 0) == Book([false, true], SlotLists([1], [1, 0, 0, 0, 0]))
  {
    DeleteZero([1, 0, 0, 0]);
    assert [1, 0, 0, 0] + [0] == [1, 0, 0, 0, 0];
  }

  lemma {:induction false} FifthInsert()
    ensures InsertAsWritten(Book([false, true], SlotLists([1], [1, 0, 0, 0, 0]))).1 == Some(1)
  {
    InsertAtOne([0, 0, 0, 0]);
    assert [1, 0, 0, 0, 0] == [1] + [0, 0, 0, 0];
  }

  /**
   * On a page of two slots, starting empty: insert, delete slot 0, insert,
   * insert, delete slot 0, insert, delete slot 0, insert. The last insert
   * takes slot 1, which the third operation filled and nothing has cleared since.
   */
  lemma {:induction false} InsertPopsUsedSlot()
    ensures InsertAsWritten(Book([false, false], SlotLists([], []))).0 == Book([true, false], SlotLists([0], [1]))
    ensures DeleteAsWritten(Book([true, false], SlotLists([0], [1])), 0) == Book([false, false], SlotLists([], [1, 0]))
    ensures InsertAsWritten(Book([false, false], SlotLists([], [1, 0]))).0 == Book([false, true], SlotLists([1], [0, 0, 1]))
    ensures InsertAsWritten(Book([false, true], SlotLists([1], [0, 0, 1]))).0 == Book([true, true], SlotLists([1, 0], [0, 1, 0]))
    ensures DeleteAsWritten(Book([true, true], SlotLists([1, 0], [0, 1, 0])), 0) == Book([false, true], SlotLists([1], [0, 1, 0, 0]))
    ensures InsertAsWritten(Book([false, true], SlotLists([1], [0, 1, 0, 0]))).0 == Book([true, true], SlotLists([1, 0], [1, 0, 0, 0]))
    ensures DeleteAsWritten(Book([true, true], SlotLists([1, 0], [1, 0, 0, 0])), 0) == Book([false, true], SlotLists([1], [1, 0, 0, 0, 0]))
    ensures InsertAsWritten(Book([false, true], SlotLists([1], [1, 0, 0, 0, 0]))).1 == Some(1)
  {
    FirstInsert();
    FirstDelete();
    SecondInsert();
    ThirdInsert();
    SecondDelete();
    FourthInsert();
    ThirdDelete();
    FifthInsert();
  }
}
