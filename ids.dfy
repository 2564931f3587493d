/** Page and record identifiers: immutable values with Java-style
    `equals`, `hashCode` and, for pages, `serialize`. */
module Ids {
  import opened JavaInt
  import opened Wrappers

  /** A page of a table: the table id and the page number within it. The two
      fields are the getters `getTableId` and `pageNumber`. */
  datatype HeapPageId = HeapPageId(tableId: int32, pgNo: int32)

  /** `equals(Object)`: `o` is `None` when the argument is null or not a page id.
      Equality is on both fields, so it is the identity of the value. */
  function PageIdEquals(id: HeapPageId, o: Option<HeapPageId>): (r: bool)
    ensures r <==> o == Some(id)
    ensures r ==> PageIdEquals(o.value, Some(id))
  {
    o.Some? && o.value.tableId == id.tableId && o.value.pgNo == id.pgNo
  }

  /** `hashCode`: tableId * 2333 + pgNo in 32-bit arithmetic. */
  function PageIdHash(id: HeapPageId): (h: int32)
    ensures (h - (id.tableId * 2333 + id.pgNo)) % TWO_32 == 0
  {
    Wrap32(id.tableId * 2333 + id.pgNo)
  }

  /** Equal page ids hash equally. */
  lemma PageIdHashConsistent(a: HeapPageId, b: HeapPageId)
    requires PageIdEquals(a, Some(b))
    ensures PageIdHash(a) == PageIdHash(b)
  {
  }

  /** `serialize`: the constructor arguments, in order; rebuilding a page id
      from them gives an equal id. */
  function Serialize(id: HeapPageId): (data: seq<int32>)
    ensures |data| == 2
    ensures PageIdEquals(id, Some(HeapPageId(data[0], data[1])))
  {
    [id.tableId, id.pgNo]
  }

  /** A tuple's location: the page it lives on and its slot number there.
      The fields are the getters `getPageId` and `tupleno`. */
  datatype RecordId = RecordId(pid: HeapPageId, tupleno: int32)

  /** `equals(Object)`: `o` is `None` for null or an object of another class;
      otherwise the page ids and the tuple numbers must both be equal. */
  function RecordIdEquals(rid: RecordId, o: Option<RecordId>): (r: bool)
    ensures r <==> o == Some(rid)
    ensures r ==> RecordIdEquals(o.value, Some(rid))
  {
    o.Some? && PageIdEquals(rid.pid, Some(o.value.pid)) && o.value.tupleno == rid.tupleno
  }

  /** `hashCode`: pid.hashCode() * 2333 + tupleno in 32-bit arithmetic. */
  function RecordIdHash(rid: RecordId): (h: int32)
    ensures (h - (PageIdHash(rid.pid) * 2333 + rid.tupleno)) % TWO_32 == 0
  {
    Wrap32(PageIdHash(rid.pid) * 2333 + rid.tupleno)
  }

  /** Equal record ids hash equally, because equal page ids do. */
  lemma RecordIdHashConsistent(a: RecordId, b: RecordId)
    requires RecordIdEquals(a, Some(b))
    ensures RecordIdHash(a) == RecordIdHash(b)
  {
    PageIdHashConsistent(a.pid, b.pid);
  }
}
