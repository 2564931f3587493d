/** TupleDesc: the schema of a tuple, an ordered list of typed, optionally
    named fields together with the fixed byte size of a tuple of that schema. */
module Schema {
  import opened JavaInt
  import opened Wrappers

  /** Maximum length of a string field's payload. */
  const STRING_LEN: nat := 128

  /** Field types and their on-disk lengths in bytes. */
  datatype Type = IntType | StringType {
    function Len(): (n: nat)
      ensures n > 0
    {
      match this
      case IntType => 4
      case StringType => STRING_LEN + 4
    }
  }

  /** One field: its type and its name, which may be null. */
  datatype TDItem = TDItem(fieldType: Type, fieldName: Option<string>)

  /** `_tdArray` and `_byte_size`. */
  datatype TupleDesc = TupleDesc(items: seq<TDItem>, byteSize: int)

  /** The outcome of a lookup that throws NoSuchElementException on failure. */
  datatype Lookup<T> = Found(value: T) | NoSuchElement

  /** Total byte length of a list of field types, summed left to right. */
  function TypesSize(ts: seq<Type>): nat
  {
    if ts == [] then 0 else TypesSize(ts[..|ts| - 1]) + ts[|ts| - 1].Len()
  }

  /** The byte size of a concatenation is the sum of the byte sizes. */
  lemma {:induction false} TypesSizeAppend(a: seq<Type>, b: seq<Type>)
    ensures TypesSize(a + b) == TypesSize(a) + TypesSize(b)
    decreases |b|
  {
    if b == [] {
      assert a + b == a;
    } else {
      var b' := b[..|b| - 1];
      assert (a + b)[..|a + b| - 1] == a + b';
      TypesSizeAppend(a, b');
    }
  }

  /** The field types of a descriptor, in order. */
  function Types(td: TupleDesc): (ts: seq<Type>)
    ensures |ts| == |td.items|
    ensures forall i :: 0 <= i < |ts| ==> ts[i] == td.items[i].fieldType
  {
    seq(|td.items|, i requires 0 <= i < |td.items| => td.items[i].fieldType)
  }

  /** The invariant every constructor establishes: the cached byte size is the
      sum of the field types' lengths. */
  predicate Valid(td: TupleDesc)
  {
    td.byteSize == TypesSize(Types(td))
  }

  /** `TupleDesc(Type[] typeAr, String[] fieldAr)`: one item per entry of
      `typeAr`, named by the matching entry of `fieldAr`, with the byte size
      accumulated along the way. */
  method Make(typeAr: seq<Type>, fieldAr: seq<Option<string>>) returns (td: TupleDesc)
    requires |fieldAr| >= |typeAr|
    ensures |td.items| == |typeAr|
    ensures forall i :: 0 <= i < |typeAr| ==> td.items[i] == TDItem(typeAr[i], fieldAr[i])
    ensures td.byteSize == TypesSize(typeAr)
    ensures Valid(td)
  {
    var items: seq<TDItem> := [];
    var size := 0;
    var i := 0;
    while i < |typeAr|
      invariant 0 <= i <= |typeAr|
      invariant |items| == i
      invariant forall k :: 0 <= k < i ==> items[k] == TDItem(typeAr[k], fieldAr[k])
      invariant size == TypesSize(typeAr[..i])
    {
      if fieldAr[i].Some? {
        items := items + [TDItem(typeAr[i], fieldAr[i])];
      } else {
        items := items + [TDItem(typeAr[i], None)];
      }
      assert typeAr[..i + 1][..i] == typeAr[..i];
      size := size + typeAr[i].Len();
      i := i + 1;
    }
    assert typeAr[..i] == typeAr;
    td := TupleDesc(items, size);
    assert Types(td) == typeAr;
  }

  /** `TupleDesc(Type[] typeAr)`: the same, with every field unnamed. */
  method MakeAnonymous(typeAr: seq<Type>) returns (td: TupleDesc)
    ensures |td.items| == |typeAr|
    ensures forall i :: 0 <= i < |typeAr| ==> td.items[i] == TDItem(typeAr[i], None)
    ensures td.byteSize == TypesSize(typeAr)
    ensures Valid(td)
  {
    var items: seq<TDItem> := [];
    var size := 0;
    var i := 0;
    while i < |typeAr|
      invariant 0 <= i <= |typeAr|
      invariant |items| == i
      invariant forall k :: 0 <= k < i ==> items[k] == TDItem(typeAr[k], None)
      invariant size == TypesSize(typeAr[..i])
    {
      items := items + [TDItem(typeAr[i], None)];
      assert typeAr[..i + 1][..i] == typeAr[..i];
      size := size + typeAr[i].Len();
      i := i + 1;
    }
    assert typeAr[..i] == typeAr;
    td := TupleDesc(items, size);
    assert Types(td) == typeAr;
  }

  /** `numFields`. */
  function NumFields(td: TupleDesc): nat
  {
    |td.items|
  }

  /** `getFieldName(i)`: the (possibly null) name of field `i`, or
      NoSuchElementException when `i` is not a field index. */
  function GetFieldName(td: TupleDesc, i: int): (r: Lookup<Option<string>>)
    ensures r.Found? <==> 0 <= i < NumFields(td)
    ensures r.Found? ==> r.value == td.items[i].fieldName
  {
    if i < 0 || i >= |td.items| then NoSuchElement else Found(td.items[i].fieldName)
  }

  /** `getFieldType(i)`: the type of field `i`, or NoSuchElementException
      when `i` is not a field index. */
  function GetFieldType(td: TupleDesc, i: int): (r: Lookup<Type>)
    ensures r.Found? <==> 0 <= i < NumFields(td)
    ensures r.Found? ==> r.value == Types(td)[i]
  {
    if i < 0 || i >= |td.items| then NoSuchElement else Found(td.items[i].fieldType)
  }

  /** `fieldNameToIndex(name)`: the first field whose non-null name equals
      `name`; NoSuchElementException for a null name or when none matches. */
  method FieldNameToIndex(td: TupleDesc, name: Option<string>) returns (r: Lookup<nat>)
    ensures name.None? ==> r == NoSuchElement
    ensures r.Found? ==> r.value < NumFields(td) && td.items[r.value].fieldName == name
    ensures r.Found? ==> forall j :: 0 <= j < r.value ==> td.items[j].fieldName != name
    ensures r == NoSuchElement && name.Some? ==> forall j :: 0 <= j < NumFields(td) ==> td.items[j].fieldName != name
  {
    if name.None? {
      return NoSuchElement;
    }
    var i := 0;
    while i < |td.items|
      invariant 0 <= i <= |td.items|
      invariant forall j :: 0 <= j < i ==> td.items[j].fieldName != name
    {
      var n := GetFieldName(td, i);
      if n.value.Some? && n.value.value == name.value {
        return Found(i);
      }
      i := i + 1;
    }
    return NoSuchElement;
  }

  /** `getSize`: the byte size of a tuple of this schema. */
  function GetSize(td: TupleDesc): (n: int)
    requires Valid(td)
    ensures n == TypesSize(Types(td))
    ensures NumFields(td) > 0 ==> n > 0
  {
    td.byteSize
  }

  /** The descriptor `merge(td1, td2)` builds: td1's fields followed by td2's. */
  function MergedDesc(td1: TupleDesc, td2: TupleDesc): (r: TupleDesc)
    ensures Valid(r)
  {
    var r := TupleDesc(td1.items + td2.items, TypesSize(Types(td1) + Types(td2)));
    assert Types(r) == Types(td1) + Types(td2);
    r
  }

  /** Merging adds the field counts and, for valid inputs, the byte sizes. */
  lemma MergedDescShape(td1: TupleDesc, td2: TupleDesc)
    ensures NumFields(MergedDesc(td1, td2)) == NumFields(td1) + NumFields(td2)
    ensures Valid(td1) && Valid(td2) ==>
      GetSize(MergedDesc(td1, td2)) == GetSize(td1) + GetSize(td2)
  {
    TypesSizeAppend(Types(td1), Types(td2));
  }

  /** `merge(td1, td2)`: copies the types and names of td1, then of td2, into
      two arrays and builds a new descriptor from them. */
  method Merge(td1: TupleDesc, td2: TupleDesc) returns (r: TupleDesc)
    ensures NumFields(r) == NumFields(td1) + NumFields(td2)
    ensures forall i :: 0 <= i < NumFields(td1) ==> r.items[i] == td1.items[i]
    ensures forall i :: 0 <= i < NumFields(td2) ==> r.items[NumFields(td1) + i] == td2.items[i]
    ensures Valid(r)
    ensures r == MergedDesc(td1, td2)
  {
    var ts, ns := FillMerged(td1, td2);
    MergedArrays(td1, td2, ts, ns);
    r := Make(ts, ns);
    MergedItems(td1, td2, ts, ns, r.items);
  }

  /** The two arrays of `merge`: td1's types and names, then td2's. */
  method FillMerged(td1: TupleDesc, td2: TupleDesc) returns (ts: seq<Type>, ns: seq<Option<string>>)
    ensures |ts| == |ns| == NumFields(td1) + NumFields(td2)
    ensures forall k :: 0 <= k < NumFields(td1) ==> ts[k] == td1.items[k].fieldType && ns[k] == td1.items[k].fieldName
    ensures forall k :: 0 <= k < NumFields(td2) ==>
      ts[NumFields(td1) + k] == td2.items[k].fieldType && ns[NumFields(td1) + k] == td2.items[k].fieldName
  {
    var n1 := NumFields(td1);
    var n2 := NumFields(td2);
    var mergeType := new Type[n1 + n2];
    var mergeName := new Option<string>[n1 + n2];
    CopyFields(td1, mergeType, mergeName, 0);
    CopyFields(td2, mergeType, mergeName, n1);
    ts, ns := mergeType[..], mergeName[..];
  }

  /** The descriptor built from those arrays lists td1's items, then td2's. */
  lemma MergedItems(td1: TupleDesc, td2: TupleDesc, ts: seq<Type>, ns: seq<Option<string>>, items: seq<TDItem>)
    requires |ts| == |ns| == |items| == NumFields(td1) + NumFields(td2)
    requires forall k :: 0 <= k < |ts| ==> TDItem(ts[k], ns[k]) == (td1.items + td2.items)[k]
    requires forall i :: 0 <= i < |ts| ==> items[i] == TDItem(ts[i], ns[i])
    ensures items == td1.items + td2.items
  {
  }

  /** The two arrays `merge` fills hold td1's fields, then td2's. */
  lemma MergedArrays(td1: TupleDesc, td2: TupleDesc, ts: seq<Type>, ns: seq<Option<string>>)
    requires |ts| == |ns| == NumFields(td1) + NumFields(td2)
    requires forall k :: 0 <= k < NumFields(td1) ==> ts[k] == td1.items[k].fieldType && ns[k] == td1.items[k].fieldName
    requires forall k :: 0 <= k < NumFields(td2) ==>
      ts[NumFields(td1) + k] == td2.items[k].fieldType && ns[NumFields(td1) + k] == td2.items[k].fieldName
    ensures ts == Types(td1) + Types(td2)
    ensures forall k :: 0 <= k < |ts| ==> TDItem(ts[k], ns[k]) == (td1.items + td2.items)[k]
  {
    var n1 := NumFields(td1);
    var all, types := td1.items + td2.items, Types(td1) + Types(td2);
    forall k | 0 <= k < |ts| ensures TDItem(ts[k], ns[k]) == all[k] && ts[k] == types[k] {
      if k < n1 {
        assert all[k] == td1.items[k] && types[k] == Types(td1)[k];
      } else {
        var j := k - n1;
        assert ts[n1 + j] == td2.items[j].fieldType && ns[n1 + j] == td2.items[j].fieldName;
        assert all[k] == td2.items[j] && types[k] == Types(td2)[j];
      }
    }
  }

  /** One of `merge`'s two copy loops: the types and names of `td` go to
      positions `offset ..` of the two arrays; the other positions keep their values. */
  method CopyFields(td: TupleDesc, types: array<Type>, names: array<Option<string>>, offset: nat)
    requires offset + NumFields(td) <= types.Length == names.Length
    modifies types, names
    ensures forall k :: 0 <= k < NumFields(td) ==> types[offset + k] == td.items[k].fieldType
    ensures forall k :: 0 <= k < NumFields(td) ==> names[offset + k] == td.items[k].fieldName
    ensures forall k :: 0 <= k < types.Length && !(offset <= k < offset + NumFields(td)) ==>
      types[k] == old(types[k]) && names[k] == old(names[k])
  {
    for i := 0 to NumFields(td)
      invariant forall k :: 0 <= k < i ==> types[offset + k] == td.items[k].fieldType
      invariant forall k :: 0 <= k < i ==> names[offset + k] == td.items[k].fieldName
      invariant forall k :: 0 <= k < types.Length && !(offset <= k < offset + i) ==>
        types[k] == old(types[k]) && names[k] == old(names[k])
    {
      types[offset + i] := GetFieldType(td, i).value;
      names[offset + i] := GetFieldName(td, i).value;
    }
  }

  /** `equals(Object)`: `o` is `None` for null or a non-TupleDesc. Two
      descriptors are equal when they have the same number of fields and the
      same type at every position; names are ignored. */
  method Equals(td: TupleDesc, o: Option<TupleDesc>) returns (r: bool)
    ensures r <==> o.Some? && Types(td) == Types(o.value)
  {
    if o.None? {
      return false;
    }
    var other := o.value;
    if NumFields(td) != NumFields(other) {
      return false;
    }
    var i := 0;
    while i < NumFields(td)
      invariant 0 <= i <= NumFields(td)
      invariant forall k :: 0 <= k < i ==> Types(td)[k] == Types(other)[k]
    {
      if GetFieldType(td, i).value != GetFieldType(other, i).value {
        return false;
      }
      i := i + 1;
    }
    return true;
  }

  /** The hash that `hashCode` folds over a type list, starting from 1 and
      multiplying by 7 at each step, in 32-bit arithmetic. `typeHash` is the
      hash code of each Type constant. */
  function HashOf(ts: seq<Type>, typeHash: Type -> int32): int32
  {
    if ts == [] then 1 else Wrap32(HashOf(ts[..|ts| - 1], typeHash) * 7 + typeHash(ts[|ts| - 1]))
  }

  /** `hashCode`: a function of the type list alone, so descriptors that are
      `Equals` (same types, any names) hash equally. */
  method HashCode(td: TupleDesc, typeHash: Type -> int32) returns (h: int32)
    ensures h == HashOf(Types(td), typeHash)
  {
    h := 1;
    var i := 0;
    while i < |td.items|
      invariant 0 <= i <= |td.items|
      invariant h == HashOf(Types(td)[..i], typeHash)
    {
      assert Types(td)[..i + 1][..i] == Types(td)[..i];
      h := Wrap32(h * 7 + typeHash(GetFieldType(td, i).value));
      i := i + 1;
    }
    assert Types(td)[..i] == Types(td);
  }
}
