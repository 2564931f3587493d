/** Tuple: a fixed-length list of field values under a schema, with an
    optional record id, updated in place. */
module Tuples {
  import opened JavaInt
  import opened Wrappers
  import opened Schema
  import opened Ids

  /** Field values; the two field classes of the engine. */
  datatype Field = IntField(intValue: int32) | StringField(strValue: string)

  /** The value of a tuple as the operators see it: its schema and its field
      values, `None` standing for a field that was never set (null). */
  datatype Row = Row(td: TupleDesc, fields: seq<Option<Field>>)

  class Tuple {
    var td: TupleDesc
    var rid: Option<RecordId>
    /** `_fieldlist`: a fixed-size list, so an array whose length never changes. */
    const fieldList: array<Option<Field>>

    /** The tuple's current value. */
    function Value(): (r: Row)
      reads this, fieldList
      ensures |r.fields| == fieldList.Length
    {
      Row(td, fieldList[..])
    }

    /** `Tuple(td)`: numFields(td) fields, all null, and no record id. */
    constructor (td: TupleDesc)
      ensures this.td == td && rid == None
      ensures fresh(fieldList)
      ensures Value().fields == seq(NumFields(td), _ => None)
    {
      this.td := td;
      this.rid := None;
      this.fieldList := new Option<Field>[NumFields(td)](_ => None);
    }

    /** `getTupleDesc`. */
    function GetTupleDesc(): (r: TupleDesc)
      reads this
      ensures r == td
    {
      td
    }

    /** `getRecordId`: the last record id set, or null. */
    function GetRecordId(): (r: Option<RecordId>)
      reads this
      ensures r == rid
    {
      rid
    }

    /** `setRecordId`: replaces only the record id. */
    method SetRecordId(r: Option<RecordId>)
      modifies this
      ensures rid == r
      ensures td == old(td) && fieldList[..] == old(fieldList[..])
    {
      rid := r;
    }

    /** `setField(i, f)`: field `i` becomes `f`, every other field and the
        field count stay as they were. */
    method SetField(i: int, f: Option<Field>)
      requires 0 <= i < fieldList.Length
      modifies fieldList
      ensures fieldList[..] == old(fieldList[..])[i := f]
      ensures GetField(i) == f
      ensures forall j :: 0 <= j < fieldList.Length && j != i ==> GetField(j) == old(GetField(j))
    {
      fieldList[i] := f;
    }

    /** `getField(i)`: the value of field `i`, null if it was never set. */
    function GetField(i: int): (r: Option<Field>)
      requires 0 <= i < fieldList.Length
      reads fieldList
      ensures r == Value().fields[i]
    {
      fieldList[i]
    }

    /** `resetTupleDesc`: replaces only the schema; the field values and
        their number are untouched. */
    method ResetTupleDesc(td: TupleDesc)
      modifies this
      ensures this.td == td
      ensures rid == old(rid) && fieldList[..] == old(fieldList[..])
    {
      this.td := td;
    }
  }
}
