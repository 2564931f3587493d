/** StringAggregator: counts the tuples of each group in an
    insertion-ordered map, whatever the operator it is built with. */
module StringAgg {
  import opened JavaInt
  import opened Wrappers
  import opened Schema
  import opened Tuples
  import opened Grouping

  /** The state `mergeTupleIntoGroup` works on, as a value: the key order of
      `_counts` (a LinkedHashMap) and `_counts` itself. */
  datatype CountState = CountState(keys: seq<Key>, counts: map<Key, int>)

  /** One call of `mergeTupleIntoGroup`: the count of the tuple's group goes
      up by one, from 0 for a group not seen before, which goes to the end of
      the key order. */
  function CountStep(gbfield: int, s: CountState, t: Row): CountState
    requires HasGroupField(gbfield, t)
  {
    var k := GroupKey(gbfield, t);
    var cnt := if k in s.counts then s.counts[k] else 0;
    CountState(if k in s.counts then s.keys else s.keys + [k], s.counts[k := cnt + 1])
  }

  /** The state after merging `ts`, in order, into a fresh aggregator. */
  function CountFold(gbfield: int, ts: seq<Row>): CountState
    requires AllHaveGroupField(gbfield, ts)
  {
    if ts == [] then CountState([], map[])
    else CountStep(gbfield, CountFold(gbfield, ts[..|ts| - 1]), ts[|ts| - 1])
  }

  /** The counts of the keys `keys`, added up. */
  function SumCounts(keys: seq<Key>, counts: map<Key, int>): int
    requires forall i :: 0 <= i < |keys| ==> keys[i] in counts
  {
    if keys == [] then 0 else SumCounts(keys[..|keys| - 1], counts) + counts[keys[|keys| - 1]]
  }

  /** The counts mean what the source intends: the keys are the groups in
      first-seen order, and each key's count is the size of its group. */
  lemma {:induction false} CountFoldSpec(gbfield: int, ts: seq<Row>)
    requires AllHaveGroupField(gbfield, ts)
    ensures var s := CountFold(gbfield, ts);
      && s.keys == KeysInOrder(gbfield, ts)
      && (forall k :: k in s.counts <==> k in s.keys)
      && (forall k :: k in s.counts ==> s.counts[k] == GroupSize(gbfield, ts, k))
  {
    if ts != [] {
      var p := ts[..|ts| - 1];
      var t := ts[|ts| - 1];
      assert AllHaveGroupField(gbfield, p);
      CountFoldSpec(gbfield, p);
      KeysInOrderSpec(gbfield, p);
      AppendOne(gbfield, p, t);
      assert p + [t] == ts;
      var s, s' := CountFold(gbfield, p), CountFold(gbfield, ts);
      assert s' == CountStep(gbfield, s, t);
      forall k | k in s'.counts
        ensures s'.counts[k] == GroupSize(gbfield, ts, k)
      {
        if k != GroupKey(gbfield, t) {
          assert k in s.counts;
        }
      }
    }
  }

  /** Changing the count of a key listed once moves the sum by the change. */
  lemma {:induction false} SumCountsUpdate(keys: seq<Key>, counts: map<Key, int>, k: Key, v: int)
    requires forall i :: 0 <= i < |keys| ==> keys[i] in counts
    requires Distinct(keys) && k in keys
    ensures SumCounts(keys, counts[k := v]) == SumCounts(keys, counts) - counts[k] + v
  {
    var p := keys[..|keys| - 1];
    if keys[|keys| - 1] == k {
      assert k !in p;
      SumCountsFrame(p, counts, k, v);
    } else {
      SumCountsUpdate(p, counts, k, v);
    }
  }

  /** The count of a key not listed does not enter the sum. */
  lemma {:induction false} SumCountsFrame(keys: seq<Key>, counts: map<Key, int>, k: Key, v: int)
    requires forall i :: 0 <= i < |keys| ==> keys[i] in counts
    requires k !in keys
    ensures SumCounts(keys, counts[k := v]) == SumCounts(keys, counts)
  {
    if keys != [] {
      SumCountsFrame(keys[..|keys| - 1], counts, k, v);
    }
  }

  /** The counts of all groups add up to the number of merged tuples. */
  lemma {:induction false} CountsSumToSize(gbfield: int, ts: seq<Row>)
    requires AllHaveGroupField(gbfield, ts)
    ensures var s := CountFold(gbfield, ts);
      && (forall i :: 0 <= i < |s.keys| ==> s.keys[i] in s.counts)
      && SumCounts(s.keys, s.counts) == |ts|
  {
    CountFoldSpec(gbfield, ts);
    if ts != [] {
      var p := ts[..|ts| - 1];
      var t := ts[|ts| - 1];
      assert AllHaveGroupField(gbfield, p);
      CountsSumToSize(gbfield, p);
      CountFoldSpec(gbfield, p);
      KeysInOrderSpec(gbfield, p);
      var s := CountFold(gbfield, p);
      var k := GroupKey(gbfield, t);
      if k in s.counts {
        SumCountsUpdate(s.keys, s.counts, k, s.counts[k] + 1);
      } else {
        SumCountsFrame(s.keys, s.counts, k, 1);
        assert (s.keys + [k])[..|s.keys|] == s.keys;
      }
    }
  }

  /** The aggregator's output for input `ts`: one tuple per group, in the
      order the groups were first seen, carrying the group's size. */
  function CountResults(gbfield: int, td: TupleDesc, ts: seq<Row>): (rows: seq<Row>)
    requires AllHaveGroupField(gbfield, ts) && |ts| <= INT_MAX
  {
    var ks := KeysInOrder(gbfield, ts);
    seq(|ks|, i requires 0 <= i < |ks| => OutputRow(gbfield, td, ks[i], GroupSize(gbfield, ts, ks[i])))
  }

  class StringAggregator {
    const gbfield: int
    const gbfieldtype: Option<Type>
    const afield: int
    /** Kept but never consulted: every operator counts. */
    const what: Op
    /** The schema of the output tuples. */
    const td: TupleDesc
    /** The key order of `_counts`, a LinkedHashMap. */
    var groupKeys: seq<Key>
    /** `_counts`: the number of tuples of each group. */
    var counts: map<Key, int>
    /** Every tuple merged so far, in order. */
    ghost var merged: seq<Row>

    /** The map is the one a fresh aggregator reaches by merging `merged`
        (CountFoldSpec says what it then holds). */
    ghost predicate Valid()
      reads this
    {
      && AllHaveGroupField(gbfield, merged)
      && |merged| <= INT_MAX
      && CountState(groupKeys, counts) == CountFold(gbfield, merged)
    }

    /** `StringAggregator(gbfield, gbfieldtype, afield, what)`: an empty map and
        the output schema (aggregateValue) or (groupValue, aggregateValue).
        Any operator is accepted. */
    constructor (gbfield: int, gbfieldtype: Option<Type>, afield: int, what: Op)
      requires gbfield != NO_GROUPING ==> gbfieldtype.Some?
      ensures Valid() && merged == []
      ensures this.gbfield == gbfield && this.afield == afield && this.what == what
      ensures gbfield == NO_GROUPING ==>
        td.items == [TDItem(IntType, Some("aggregateValue"))]
      ensures gbfield != NO_GROUPING ==>
        td.items == [TDItem(gbfieldtype.value, Some("groupValue")), TDItem(IntType, Some("aggregateValue"))]
    {
      var d: TupleDesc;
      if gbfield == NO_GROUPING {
        d := Make([IntType], [Some("aggregateValue")]);
      } else {
        d := Make([gbfieldtype.value, IntType], [Some("groupValue"), Some("aggregateValue")]);
      }
      this.gbfield := gbfield;
      this.gbfieldtype := gbfieldtype;
      this.afield := afield;
      this.what := what;
      this.td := d;
      groupKeys := [];
      counts := map[];
      merged := [];
    }

    /** `mergeTupleIntoGroup(tup)`: the count of the tuple's group goes up by
        one and no other count changes. At most INT_MAX tuples are merged in
        all, so the counts stay within 32 bits. */
    method MergeTupleIntoGroup(tup: Row)
      requires Valid()
      requires HasGroupField(gbfield, tup)
      requires |merged| < INT_MAX
      modifies this
      ensures Valid()
      ensures merged == old(merged) + [tup]
      ensures var k := GroupKey(gbfield, tup);
        && k in counts
        && counts[k] == (if k in old(counts) then old(counts)[k] else 0) + 1
        && forall k' :: k' != k ==>
             (k' in counts <==> k' in old(counts)) &&
             (k' in counts ==> counts[k'] == old(counts)[k'])
    {
      var groupField: Key := if gbfield == NO_GROUPING then None else tup.fields[gbfield];
      var cnt := if groupField in counts then counts[groupField] else 0;
      assert (merged + [tup])[..|merged|] == merged;
      assert AllHaveGroupField(gbfield, merged + [tup]);
      groupKeys := if groupField in counts then groupKeys else groupKeys + [groupField];
      counts := counts[groupField := cnt + 1];
      merged := merged + [tup];
    }

    /** `iterator()`: one output tuple per group, in first-seen order, with
        the group's count. */
    method Iterator() returns (rows: seq<Row>)
      requires Valid()
      ensures rows == CountResults(gbfield, td, merged)
    {
      CountFoldSpec(gbfield, merged);
      ghost var all := CountResults(gbfield, td, merged);
      rows := [];
      var i := 0;
      while i < |groupKeys|
        invariant 0 <= i <= |groupKeys| == |all|
        invariant rows == all[..i]
      {
        var key := groupKeys[i];
        var value := counts[key];
        var tuple: Row;
        if gbfield == NO_GROUPING {
          tuple := Row(td, [Some(IntField(value))]);
        } else {
          tuple := Row(td, [key, Some(IntField(value))]);
        }
        assert tuple == all[i];
        rows := rows + [tuple];
        i := i + 1;
      }
      assert all[..i] == all;
    }
  }
}
