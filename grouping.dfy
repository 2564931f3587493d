/** What the two aggregators share: the group key of a tuple and the groups
    of an input in first-seen order, the order of their LinkedHashMaps. */
module Grouping {
  import opened JavaInt
  import opened Wrappers
  import opened Schema
  import opened Tuples

  /** The aggregation operators an aggregator is built with. */
  datatype Op = MIN | MAX | SUM | AVG | COUNT

  /** The group-by index meaning "no grouping". */
  const NO_GROUPING: int := -1

  /** A group key: the group-by field's value, null without grouping. */
  type Key = Option<Field>

  /** The tuple has the group-by field the aggregator reads (or needs none). */
  predicate HasGroupField(gbfield: int, t: Row)
  {
    gbfield == NO_GROUPING || 0 <= gbfield < |t.fields|
  }

  predicate AllHaveGroupField(gbfield: int, ts: seq<Row>)
  {
    forall i :: 0 <= i < |ts| ==> HasGroupField(gbfield, ts[i])
  }

  /** The key a merged tuple is counted under. */
  function GroupKey(gbfield: int, t: Row): Key
    requires HasGroupField(gbfield, t)
  {
    if gbfield == NO_GROUPING then None else t.fields[gbfield]
  }

  /** The number of tuples of `ts` whose key is `k`. */
  function GroupSize(gbfield: int, ts: seq<Row>, k: Key): (n: nat)
    requires AllHaveGroupField(gbfield, ts)
    ensures n <= |ts|
  {
    if ts == [] then 0
    else GroupSize(gbfield, ts[..|ts| - 1], k) + if GroupKey(gbfield, ts[|ts| - 1]) == k then 1 else 0
  }

  /** The distinct keys of `ts`, each appended when first seen. */
  function KeysInOrder(gbfield: int, ts: seq<Row>): seq<Key>
    requires AllHaveGroupField(gbfield, ts)
  {
    if ts == [] then []
    else
      var ks := KeysInOrder(gbfield, ts[..|ts| - 1]);
      var k := GroupKey(gbfield, ts[|ts| - 1]);
      if k in ks then ks else ks + [k]
  }

  predicate Distinct<T(==)>(s: seq<T>)
  {
    forall i, j :: 0 <= i < j < |s| ==> s[i] != s[j]
  }

  /** The group keys are distinct, and a key is listed exactly when its group
      is non-empty. */
  lemma {:induction false} KeysInOrderSpec(gbfield: int, ts: seq<Row>)
    requires AllHaveGroupField(gbfield, ts)
    ensures Distinct(KeysInOrder(gbfield, ts))
    ensures forall k :: k in KeysInOrder(gbfield, ts) <==> GroupSize(gbfield, ts, k) > 0
  {
    if ts != [] {
      KeysInOrderSpec(gbfield, ts[..|ts| - 1]);
    }
  }

  /** Appending one tuple: the keys and groups of `ts + [t]` from those of `ts`. */
  lemma AppendOne(gbfield: int, ts: seq<Row>, t: Row)
    requires AllHaveGroupField(gbfield, ts) && HasGroupField(gbfield, t)
    ensures AllHaveGroupField(gbfield, ts + [t])
    ensures KeysInOrder(gbfield, ts + [t]) ==
      if GroupKey(gbfield, t) in KeysInOrder(gbfield, ts) then KeysInOrder(gbfield, ts)
      else KeysInOrder(gbfield, ts) + [GroupKey(gbfield, t)]
    ensures forall k :: (GroupSize(gbfield, ts + [t], k) ==
      GroupSize(gbfield, ts, k) + if k == GroupKey(gbfield, t) then 1 else 0)
  {
    assert (ts + [t])[..|ts|] == ts;
  }

  /** One output tuple: (value) without grouping, (group, value) with it. */
  function OutputRow(gbfield: int, td: TupleDesc, k: Key, v: int32): Row
  {
    if gbfield == NO_GROUPING then Row(td, [Some(IntField(v))]) else Row(td, [k, Some(IntField(v))])
  }
}
