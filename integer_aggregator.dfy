/** IntegerAggregator: folds tuples into per-group MIN, MAX, COUNT, SUM or
    AVG of an integer field, kept in insertion-ordered maps. */
module IntAgg {
  import opened JavaInt
  import opened Wrappers
  import opened Schema
  import opened Tuples
  import opened Grouping

  /** The aggregate field is set and holds an IntField. */
  predicate HasIntField(afield: int, t: Row)
  {
    0 <= afield < |t.fields| && t.fields[afield].Some? && t.fields[afield].value.IntField?
  }

  /** What `mergeTupleIntoGroup` reads of a tuple without throwing. */
  predicate Mergeable(gbfield: int, afield: int, t: Row)
  {
    HasGroupField(gbfield, t) && HasIntField(afield, t)
  }

  predicate AllMergeable(gbfield: int, afield: int, ts: seq<Row>)
  {
    AllHaveGroupField(gbfield, ts) && forall i :: 0 <= i < |ts| ==> HasIntField(afield, ts[i])
  }

  /** The integer a tuple contributes. */
  function AggField(afield: int, t: Row): int32
    requires HasIntField(afield, t)
  {
    t.fields[afield].value.intValue
  }

  /** The aggregate values of the tuples of group `k`, in input order. */
  function GroupValues(gbfield: int, afield: int, ts: seq<Row>, k: Key): (vs: seq<int32>)
    requires AllMergeable(gbfield, afield, ts)
    ensures |vs| == GroupSize(gbfield, ts, k)
  {
    if ts == [] then []
    else
      var t := ts[|ts| - 1];
      GroupValues(gbfield, afield, ts[..|ts| - 1], k) + if GroupKey(gbfield, t) == k then [AggField(afield, t)] else []
  }

  function Min(vs: seq<int>): int
    requires vs != []
  {
    if |vs| == 1 then vs[0]
    else
      var m := Min(vs[..|vs| - 1]);
      if vs[|vs| - 1] < m then vs[|vs| - 1] else m
  }

  function Max(vs: seq<int>): int
    requires vs != []
  {
    if |vs| == 1 then vs[0]
    else
      var m := Max(vs[..|vs| - 1]);
      if vs[|vs| - 1] > m then vs[|vs| - 1] else m
  }

  function Sum(vs: seq<int>): int
  {
    if vs == [] then 0 else Sum(vs[..|vs| - 1]) + vs[|vs| - 1]
  }

  /** Min is the least of the values and one of them. */
  lemma {:induction false} MinIsLeast(vs: seq<int>)
    requires vs != []
    ensures Min(vs) in vs
    ensures forall x :: x in vs ==> Min(vs) <= x
  {
    if |vs| > 1 {
      var p := vs[..|vs| - 1];
      MinIsLeast(p);
      assert vs == p + [vs[|vs| - 1]];
    }
  }

  /** Max is the greatest of the values and one of them. */
  lemma {:induction false} MaxIsGreatest(vs: seq<int>)
    requires vs != []
    ensures Max(vs) in vs
    ensures forall x :: x in vs ==> x <= Max(vs)
  {
    if |vs| > 1 {
      var p := vs[..|vs| - 1];
      MaxIsGreatest(p);
      assert vs == p + [vs[|vs| - 1]];
    }
  }

  /** What `_groupByValue` holds for a group whose values so far are `vs`:
      the minimum, the maximum, the number of values, or their 32-bit sum
      (for SUM, and for AVG, which divides it by the count on output). */
  function Stored(what: Op, vs: seq<int32>): (r: int)
    requires vs != []
    ensures |vs| <= INT_MAX ==> IsInt32(r)
  {
    match what
    case MIN => MinIsLeast(vs); Min(vs)
    case MAX => MaxIsGreatest(vs); Max(vs)
    case COUNT => |vs|
    case SUM => Wrap32(Sum(vs))
    case AVG => Wrap32(Sum(vs))
  }

  /** What the stored entry means for each operator: MIN and MAX hold the
      least and greatest value seen, COUNT the number of values, SUM and AVG
      their sum modulo 2^32. */
  lemma StoredMeaning(what: Op, vs: seq<int32>)
    requires vs != []
    ensures what == MIN ==> Stored(what, vs) in vs && forall x :: x in vs ==> Stored(what, vs) <= x
    ensures what == MAX ==> Stored(what, vs) in vs && forall x :: x in vs ==> x <= Stored(what, vs)
    ensures what == COUNT ==> Stored(what, vs) == |vs|
    ensures what == SUM || what == AVG ==>
      IsInt32(Stored(what, vs)) && (Stored(what, vs) - Sum(vs)) % TWO_32 == 0
  {
    match what
    case MIN => MinIsLeast(vs);
    case MAX => MaxIsGreatest(vs);
    case COUNT =>
    case SUM =>
    case AVG =>
  }

  /** One case of the switch in `mergeTupleIntoGroup`: the new entry from the
      previous one (`None` when the group is new) and the tuple's value. */
  function Step(what: Op, prev: Option<int>, now: int32): int
  {
    match what
    case MIN => if prev.None? then now else if prev.value < now then prev.value else now
    case MAX => if prev.None? then now else if prev.value > now then prev.value else now
    case COUNT => if prev.None? then 1 else prev.value + 1
    case SUM => if prev.None? then now else Wrap32(now + prev.value)
    case AVG => if prev.None? then now else Wrap32(now + prev.value)
  }

  /** The incremental update keeps the stored entry equal to the aggregate of
      all the group's values, 32-bit wrap-around included. */
  lemma StoredStep(what: Op, vs: seq<int32>, v: int32)
    ensures Stored(what, vs + [v]) ==
      Step(what, if vs == [] then None else Some(Stored(what, vs)), v)
  {
    var ws := vs + [v];
    assert ws[..|ws| - 1] == vs;
    if vs != [] && (what == SUM || what == AVG) {
      WrapAddLeft(Sum(vs), v);
    }
  }

  /** The value reported for a group: the stored entry, divided by the count
      with Java's truncating division for AVG. */
  function ResultValue(what: Op, vs: seq<int32>): (r: int32)
    requires vs != [] && |vs| <= INT_MAX
  {
    if what == AVG then
      JavaDivInRange(Stored(what, vs), |vs|);
      JavaDiv(Stored(what, vs), |vs|)
    else
      Stored(what, vs)
  }

  /** The aggregator's output for input `ts`: one tuple per group, in the
      order the groups were first seen. */
  function Results(gbfield: int, afield: int, what: Op, td: TupleDesc, ts: seq<Row>): (rows: seq<Row>)
    requires AllMergeable(gbfield, afield, ts) && |ts| <= INT_MAX
    ensures |rows| == |KeysInOrder(gbfield, ts)|
  {
    var ks := KeysInOrder(gbfield, ts);
    KeysInOrderSpec(gbfield, ts);
    seq(|ks|, i requires 0 <= i < |ks| => GroupResult(gbfield, afield, what, td, ts, ks[i]))
  }

  /** The output tuple of group `k`. */
  function GroupResult(gbfield: int, afield: int, what: Op, td: TupleDesc, ts: seq<Row>, k: Key): Row
    requires AllMergeable(gbfield, afield, ts) && |ts| <= INT_MAX && GroupSize(gbfield, ts, k) > 0
  {
    OutputRow(gbfield, td, k, ResultValue(what, GroupValues(gbfield, afield, ts, k)))
  }

  /** The state `mergeTupleIntoGroup` works on, as a value: the key order
      of `_groupByValue` (a LinkedHashMap), `_groupByValue` and `_counts`. */
  datatype AggState = AggState(keys: seq<Key>, values: map<Key, int>, counts: map<Key, int>)

  /** One call of `mergeTupleIntoGroup`: the tuple's group gets the next
      value of the switch (a new group goes to the end of the key order), and
      for AVG its count goes up by one. */
  function MergeStep(gbfield: int, afield: int, what: Op, s: AggState, t: Row): AggState
    requires Mergeable(gbfield, afield, t)
  {
    var k := GroupKey(gbfield, t);
    var prev := if k in s.values then Some(s.values[k]) else None;
    AggState(if k in s.values then s.keys else s.keys + [k],
             s.values[k := Step(what, prev, AggField(afield, t))],
             if what == AVG then s.counts[k := (if k in s.counts then s.counts[k] else 0) + 1] else s.counts)
  }

  /** The state after merging `ts`, in order, into a fresh aggregator. */
  function Fold(gbfield: int, afield: int, what: Op, ts: seq<Row>): AggState
    requires AllMergeable(gbfield, afield, ts)
  {
    if ts == [] then AggState([], map[], map[])
    else MergeStep(gbfield, afield, what, Fold(gbfield, afield, what, ts[..|ts| - 1]), ts[|ts| - 1])
  }

  /** A state agrees with the tuples `ts`: the keys are the groups in
      first-seen order, each group holds the aggregate of its values, and for
      AVG each group's count is its size. */
  ghost predicate Consistent(gbfield: int, afield: int, what: Op, s: AggState, ts: seq<Row>)
  {
    && AllMergeable(gbfield, afield, ts)
    && |ts| <= INT_MAX
    && s.keys == KeysInOrder(gbfield, ts)
    && (forall k :: k in s.values <==> k in s.keys)
    && (forall k :: k in s.values ==>
          GroupSize(gbfield, ts, k) > 0 &&
          s.values[k] == Stored(what, GroupValues(gbfield, afield, ts, k)))
    && (what == AVG ==> forall k :: k in s.counts <==> k in s.values)
    && (what == AVG ==> forall k :: k in s.counts ==> s.counts[k] == GroupSize(gbfield, ts, k))
    && (what != AVG ==> s.counts == map[])
  }

  /** One merge keeps the state consistent with the longer input. */
  lemma MergeKeepsConsistent(gbfield: int, afield: int, what: Op, s: AggState, ts: seq<Row>, t: Row)
    requires Consistent(gbfield, afield, what, s, ts)
    requires Mergeable(gbfield, afield, t) && |ts| < INT_MAX
    ensures Consistent(gbfield, afield, what, MergeStep(gbfield, afield, what, s, t), ts + [t])
  {
    AppendOne(gbfield, ts, t);
    GroupValuesAppend(gbfield, afield, ts, t);
    MergeKeepsValues(gbfield, afield, what, s.keys, s.values, ts, t);
    if what == AVG {
      MergeKeepsCounts(gbfield, afield, s.keys, s.values, s.counts, ts, t);
    }
  }

  /** Whatever the tuples, the folded state is consistent with them: the
      incremental maps always hold the true per-group aggregates. */
  lemma {:induction false} FoldConsistent(gbfield: int, afield: int, what: Op, ts: seq<Row>)
    requires AllMergeable(gbfield, afield, ts) && |ts| <= INT_MAX
    ensures Consistent(gbfield, afield, what, Fold(gbfield, afield, what, ts), ts)
  {
    if ts != [] {
      var p := ts[..|ts| - 1];
      assert AllMergeable(gbfield, afield, p);
      FoldConsistent(gbfield, afield, what, p);
      MergeKeepsConsistent(gbfield, afield, what, Fold(gbfield, afield, what, p), p, ts[|ts| - 1]);
      assert p + [ts[|ts| - 1]] == ts;
    }
  }

  /** The key order of the folded state is the first-seen order of the groups. */
  lemma FoldKeys(gbfield: int, afield: int, what: Op, ts: seq<Row>)
    requires AllMergeable(gbfield, afield, ts) && |ts| <= INT_MAX
    ensures Fold(gbfield, afield, what, ts).keys == KeysInOrder(gbfield, ts)
  {
    FoldConsistent(gbfield, afield, what, ts);
  }

  /** The entry of one group of the folded state: the aggregate of the
      group's values and, for AVG, the group's size. */
  lemma FoldEntry(gbfield: int, afield: int, what: Op, ts: seq<Row>, k: Key)
    requires AllMergeable(gbfield, afield, ts) && |ts| <= INT_MAX
    requires k in Fold(gbfield, afield, what, ts).keys
    ensures var s := Fold(gbfield, afield, what, ts);
      && GroupValues(gbfield, afield, ts, k) != []
      && k in s.values
      && s.values[k] == Stored(what, GroupValues(gbfield, afield, ts, k))
      && (what == AVG ==> k in s.counts && s.counts[k] == |GroupValues(gbfield, afield, ts, k)|)
      && GroupSize(gbfield, ts, k) > 0
      && IsInt32(s.values[k])
      && (what != AVG ==> ResultValue(what, GroupValues(gbfield, afield, ts, k)) == s.values[k])
      && (what == AVG ==> ResultValue(what, GroupValues(gbfield, afield, ts, k)) == JavaDiv(s.values[k], s.counts[k]))
  {
    FoldConsistent(gbfield, afield, what, ts);
  }

  /** The value part of MergeKeepsConsistent. */
  lemma MergeKeepsValues(gbfield: int, afield: int, what: Op, keys: seq<Key>,
                         groupByValue: map<Key, int>, ts: seq<Row>, t: Row)
    requires AllMergeable(gbfield, afield, ts) && Mergeable(gbfield, afield, t)
    requires keys == KeysInOrder(gbfield, ts)
    requires forall k :: k in groupByValue <==> k in keys
    requires forall k :: k in groupByValue ==>
      GroupSize(gbfield, ts, k) > 0 && groupByValue[k] == Stored(what, GroupValues(gbfield, afield, ts, k))
    ensures AllMergeable(gbfield, afield, ts + [t])
    ensures var k := GroupKey(gbfield, t);
      var gv' := groupByValue[k := Step(what, if k in groupByValue then Some(groupByValue[k]) else None, AggField(afield, t))];
      forall k' :: k' in gv' ==>
        GroupSize(gbfield, ts + [t], k') > 0 && gv'[k'] == Stored(what, GroupValues(gbfield, afield, ts + [t], k'))
  {
    var k := GroupKey(gbfield, t);
    var v := AggField(afield, t);
    AppendOne(gbfield, ts, t);
    KeysInOrderSpec(gbfield, ts);
    GroupValuesAppend(gbfield, afield, ts, t);
    StoredStep(what, GroupValues(gbfield, afield, ts, k), v);
  }

  /** The count part of MergeKeepsConsistent, for AVG. */
  lemma MergeKeepsCounts(gbfield: int, afield: int, keys: seq<Key>,
                         groupByValue: map<Key, int>, counts: map<Key, int>, ts: seq<Row>, t: Row)
    requires AllMergeable(gbfield, afield, ts) && Mergeable(gbfield, afield, t)
    requires keys == KeysInOrder(gbfield, ts)
    requires forall k :: k in groupByValue <==> k in keys
    requires forall k :: k in counts <==> k in groupByValue
    requires forall k :: k in counts ==> counts[k] == GroupSize(gbfield, ts, k)
    ensures var k := GroupKey(gbfield, t);
      var counts' := counts[k := (if k in counts then counts[k] else 0) + 1];
      forall k' :: k' in counts' ==> counts'[k'] == GroupSize(gbfield, ts + [t], k')
  {
    var k := GroupKey(gbfield, t);
    AppendOne(gbfield, ts, t);
    KeysInOrderSpec(gbfield, ts);
  }

  /** The values of each group after appending one tuple. */
  lemma GroupValuesAppend(gbfield: int, afield: int, ts: seq<Row>, t: Row)
    requires AllMergeable(gbfield, afield, ts) && Mergeable(gbfield, afield, t)
    ensures AllMergeable(gbfield, afield, ts + [t])
    ensures forall k :: (GroupValues(gbfield, afield, ts + [t], k) ==
      if k == GroupKey(gbfield, t) then GroupValues(gbfield, afield, ts, k) + [AggField(afield, t)]
      else GroupValues(gbfield, afield, ts, k))
  {
    AppendOne(gbfield, ts, t);
    assert (ts + [t])[..|ts|] == ts;
    assert AllMergeable(gbfield, afield, ts + [t]);
  }

  class IntegerAggregator {
    const gbfield: int
    const gbfieldtype: Option<Type>
    const afield: int
    const what: Op
    /** The schema of the output tuples. */
    const td: TupleDesc
    /** The key order of `_groupByValue`, a LinkedHashMap. */
    var groupKeys: seq<Key>
    /** `_groupByValue`: the running aggregate of each group. */
    var groupByValue: map<Key, int>
    /** `_counts`: the number of tuples of each group, kept for AVG only. */
    var counts: map<Key, int>
    /** Every tuple merged so far, in order. */
    ghost var merged: seq<Row>

    /** The maps are those a fresh aggregator reaches by merging `merged`
        (FoldConsistent says what they then hold). */
    ghost predicate Valid()
      reads this
    {
      && AllMergeable(gbfield, afield, merged)
      && |merged| <= INT_MAX
      && AggState(groupKeys, groupByValue, counts) == Fold(gbfield, afield, what, merged)
    }

    /** `IntegerAggregator(gbfield, gbfieldtype, afield, what)`: empty maps and
        the output schema (aggregateValue) or (groupValue, aggregateValue). */
    constructor (gbfield: int, gbfieldtype: Option<Type>, afield: int, what: Op)
      requires gbfield != NO_GROUPING ==> gbfieldtype.Some?
      ensures Valid() && merged == []
      ensures this.gbfield == gbfield && this.afield == afield && this.what == what
      ensures gbfield == NO_GROUPING ==>
        td.items == [TDItem(IntType, Some("aggregateValue"))]
      ensures gbfield != NO_GROUPING ==>
        td.items == [TDItem(gbfieldtype.value, Some("groupValue")), TDItem(IntType, Some("aggregateValue"))]
    {
      var d: TupleDesc;
      if gbfield == NO_GROUPING {
        d := Make([IntType], [Some("aggregateValue")]);
      } else {
        d := Make([gbfieldtype.value, IntType], [Some("groupValue"), Some("aggregateValue")]);
      }
      this.gbfield := gbfield;
      this.gbfieldtype := gbfieldtype;
      this.afield := afield;
      this.what := what;
      this.td := d;
      groupKeys := [];
      groupByValue := map[];
      counts := map[];
      merged := [];
    }

    /** `mergeTupleIntoGroup(tup)`: updates the entry of the tuple's group, and
        no other, by one step of the operator. At most INT_MAX tuples are
        merged in all, so the counts stay within 32 bits. */
    method MergeTupleIntoGroup(tup: Row)
      requires Valid()
      requires Mergeable(gbfield, afield, tup)
      requires |merged| < INT_MAX
      modifies this
      ensures Valid()
      ensures merged == old(merged) + [tup]
      ensures var k := GroupKey(gbfield, tup);
        && k in groupByValue
        && groupByValue[k] == Step(what, if k in old(groupByValue) then Some(old(groupByValue)[k]) else None,
                                   AggField(afield, tup))
        && forall k' :: k' != k ==>
             (k' in groupByValue <==> k' in old(groupByValue)) &&
             (k' in groupByValue ==> groupByValue[k'] == old(groupByValue)[k'])
    {
      var groupField: Key := if gbfield == NO_GROUPING then None else tup.fields[gbfield];
      var oldValue: Option<int> := if groupField in groupByValue then Some(groupByValue[groupField]) else None;
      var nowValue := tup.fields[afield].value.intValue;
      var newValue: int;
      var newCounts := counts;
      match what {
        case MIN =>
          newValue := if oldValue.None? then nowValue
                      else if oldValue.value < nowValue then oldValue.value else nowValue;
        case MAX =>
          newValue := if oldValue.None? then nowValue
                      else if oldValue.value > nowValue then oldValue.value else nowValue;
        case COUNT =>
          newValue := if oldValue.None? then 1 else oldValue.value + 1;
        case SUM =>
          newValue := if oldValue.None? then nowValue else Wrap32(nowValue + oldValue.value);
        case AVG =>
          newValue := if oldValue.None? then nowValue else Wrap32(nowValue + oldValue.value);
          var cnt := if groupField in counts then counts[groupField] else 0;
          newCounts := counts[groupField := cnt + 1];
      }
      var newKeys := if groupField in groupByValue then groupKeys else groupKeys + [groupField];
      var newGroupByValue := groupByValue[groupField := newValue];
      assert groupField == GroupKey(gbfield, tup);
      assert newValue == Step(what, oldValue, nowValue);
      assert AggState(newKeys, newGroupByValue, newCounts) ==
             MergeStep(gbfield, afield, what, AggState(groupKeys, groupByValue, counts), tup);
      GroupValuesAppend(gbfield, afield, merged, tup);
      assert (merged + [tup])[..|merged|] == merged;
      groupKeys, groupByValue, counts := newKeys, newGroupByValue, newCounts;
      merged := merged + [tup];
    }

    /** `iterator()`: one output tuple per group, in first-seen order. */
    method Iterator() returns (rows: seq<Row>)
      requires Valid()
      ensures rows == Results(gbfield, afield, what, td, merged)
    {
      FoldKeys(gbfield, afield, what, merged);
      ghost var all := Results(gbfield, afield, what, td, merged);
      rows := [];
      var i := 0;
      while i < |groupKeys|
        invariant 0 <= i <= |groupKeys| == |all|
        invariant rows == all[..i]
      {
        var key := groupKeys[i];
        FoldEntry(gbfield, afield, what, merged, key);
        var value := groupByValue[key];
        if what == AVG {
          JavaDivInRange(value, counts[key]);
          value := JavaDiv(value, counts[key]);
        }
        var tuple: Row;
        if gbfield == NO_GROUPING {
          tuple := Row(td, [Some(IntField(value))]);
        } else {
          tuple := Row(td, [key, Some(IntField(value))]);
        }
        assert tuple == all[i];
        rows := rows + [tuple];
        i := i + 1;
      }
      assert all[..i] == all;
    }
  }
}
