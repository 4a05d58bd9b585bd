/**
 * Identifiers shared by the storage engine: transaction ids and page ids.
 * TransactionId.java, HeapPageId.java and BTreePageId.java are not part of this
 * model; their fields are taken as plain values, with the B-tree page categories
 * ROOT_PTR = 0, INTERNAL = 1, LEAF = 2 and HEADER = 3.
 */
module Ids {
  import opened JavaInts
  import opened Wrappers

  datatype TransactionId = TransactionId(id: int64)

  const ROOT_PTR: int32 := 0
  const INTERNAL: int32 := 1
  const LEAF: int32 := 2
  const HEADER: int32 := 3

  datatype PageId =
    | HeapPageId(tableId: int32, pageNumber: int32)
    | BTreePageId(tableId: int32, pageNumber: int32, category: int32)

  /** The ints `PageId.serialize` writes: heap ids two, B-tree ids three. */
  function Serialize(pid: PageId): (r: seq<int32>)
    ensures |r| == (if pid.HeapPageId? then 2 else 3)
    ensures r[0] == pid.tableId && r[1] == pid.pageNumber
  {
    match pid
    case HeapPageId(t, p) => [t, p]
    case BTreePageId(t, p, c) => [t, p, c]
  }

  /** The page id a reader rebuilds from the ints of its kind. */
  function Deserialize(heap: bool, ints: seq<int32>): (r: Option<PageId>)
    ensures r.Some? <==> |ints| == (if heap then 2 else 3)
  {
    if heap && |ints| == 2 then Some(HeapPageId(ints[0], ints[1]))
    else if !heap && |ints| == 3 then Some(BTreePageId(ints[0], ints[1], ints[2]))
    else None
  }

  lemma {:induction false} SerializeRoundTrip(pid: PageId)
    ensures Deserialize(pid.HeapPageId?, Serialize(pid)) == Some(pid)
  {
  }

  /**
   * A page id as a Java object. HeapPage compares ids of this kind by
   * reference, so the model keeps the object and its identity.
   */
  class PageIdObject {
    const value: PageId

    constructor (v: PageId)
      ensures value == v
    {
      value := v;
    }
  }
}
