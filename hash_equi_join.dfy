/** HashEquiJoin: builds a hash table over the right input, then probes it
    with each left tuple in turn and emits the concatenation of the left
    tuple with each matching right tuple. */
module Join {
  import opened Wrappers
  import opened Schema
  import opened Tuples

  /** The two join fields of a `JoinPredicate`. Its comparison operator is
      not consulted here: this join always matches on equality. */
  datatype JoinPredicate = JoinPredicate(field1: int, field2: int)

  /** A join key: a field value, possibly null. */
  type Key = Option<Field>

  /** A child's tuple: of the child's schema, one value per field, with the
      join field `f` present. */
  predicate WellFormed(t: Row, td: TupleDesc, f: int)
  {
    t.td == td && |t.fields| == NumFields(td) && 0 <= f < |t.fields|
  }

  predicate AllWellFormed(ts: seq<Row>, td: TupleDesc, f: int)
  {
    forall i :: 0 <= i < |ts| ==> WellFormed(ts[i], td, f)
  }

  function KeyOf(t: Row, f: int): Key
    requires 0 <= f < |t.fields|
  {
    t.fields[f]
  }

  /** The tuples of `rs` whose join field is `k`, in input order. */
  function Matches(rs: seq<Row>, td: TupleDesc, f: int, k: Key): seq<Row>
    requires AllWellFormed(rs, td, f)
  {
    if rs == [] then []
    else
      var r := rs[|rs| - 1];
      Matches(rs[..|rs| - 1], td, f, k) + if KeyOf(r, f) == k then [r] else []
  }

  /** The map `open` builds from the right input: each key gets the list of
      its tuples, a new key when first seen. */
  function Build(rs: seq<Row>, td: TupleDesc, f: int): map<Key, seq<Row>>
    requires AllWellFormed(rs, td, f)
  {
    if rs == [] then map[]
    else
      var m := Build(rs[..|rs| - 1], td, f);
      var r := rs[|rs| - 1];
      var k := KeyOf(r, f);
      m[k := (if k in m then m[k] else []) + [r]]
  }

  /** The map holds exactly the keys of the right input, each with all of its
      tuples in arrival order. */
  lemma {:induction false} BuildSpec(rs: seq<Row>, td: TupleDesc, f: int)
    requires AllWellFormed(rs, td, f)
    ensures forall k :: k in Build(rs, td, f) <==> Matches(rs, td, f, k) != []
    ensures forall k :: k in Build(rs, td, f) ==> Build(rs, td, f)[k] == Matches(rs, td, f, k)
  {
    if rs != [] {
      BuildSpec(rs[..|rs| - 1], td, f);
    }
  }

  /** A tuple matches key `k` exactly when it is one of the input's tuples
      with join field `k`. */
  lemma {:induction false} MatchesMembers(rs: seq<Row>, td: TupleDesc, f: int, k: Key)
    requires AllWellFormed(rs, td, f)
    ensures forall r :: r in Matches(rs, td, f, k) <==> r in rs && KeyOf(r, f) == k
    ensures AllWellFormed(Matches(rs, td, f, k), td, f)
  {
    if rs != [] {
      var p := rs[..|rs| - 1];
      MatchesMembers(p, td, f, k);
      assert rs == p + [rs[|rs| - 1]];
    }
  }

  /** Every list of the map holds right tuples. */
  predicate MapWellFormed(m: map<Key, seq<Row>>, td: TupleDesc, f: int)
  {
    forall k :: k in m ==> AllWellFormed(m[k], td, f)
  }

  /** The map built from well-formed tuples holds well-formed lists. */
  lemma BuildWellFormed(rs: seq<Row>, td: TupleDesc, f: int)
    requires AllWellFormed(rs, td, f)
    ensures MapWellFormed(Build(rs, td, f), td, f)
  {
    forall k | k in Build(rs, td, f)
      ensures AllWellFormed(Build(rs, td, f)[k], td, f)
    {
      BuildLookup(rs, td, f, k);
    }
  }

  /** Looking one key up in the map: present exactly when it has matches,
      and then mapped to them. */
  lemma BuildLookup(rs: seq<Row>, td: TupleDesc, f: int, k: Key)
    requires AllWellFormed(rs, td, f)
    ensures AllWellFormed(Matches(rs, td, f, k), td, f)
    ensures k in Build(rs, td, f) <==> Matches(rs, td, f, k) != []
    ensures k in Build(rs, td, f) ==> Build(rs, td, f)[k] == Matches(rs, td, f, k)
  {
    BuildSpec(rs, td, f);
    MatchesMembers(rs, td, f, k);
  }

  /** One output tuple: the left tuple's fields followed by the right's. */
  function Concat(td: TupleDesc, l: Row, r: Row): Row
  {
    Row(td, l.fields + r.fields)
  }

  /** The output for left tuple `l` and its matches `ms`. */
  function Emit(td: TupleDesc, l: Row, ms: seq<Row>): seq<Row>
  {
    seq(|ms|, i requires 0 <= i < |ms| => Concat(td, l, ms[i]))
  }

  /** The join's output for the left tuples from position `i` on: for each
      of them in order, its concatenation with each matching right tuple in
      order. */
  function JoinFrom(td: TupleDesc, ls: seq<Row>, i: nat, td1: TupleDesc, f1: int,
                    rs: seq<Row>, td2: TupleDesc, f2: int): seq<Row>
    requires AllWellFormed(ls, td1, f1) && AllWellFormed(rs, td2, f2)
    decreases |ls| - i
  {
    if i >= |ls| then []
    else Emit(td, ls[i], Matches(rs, td2, f2, KeyOf(ls[i], f1))) + JoinFrom(td, ls, i + 1, td1, f1, rs, td2, f2)
  }

  /** The join's whole output. */
  function JoinRows(td: TupleDesc, ls: seq<Row>, td1: TupleDesc, f1: int,
                    rs: seq<Row>, td2: TupleDesc, f2: int): seq<Row>
    requires AllWellFormed(ls, td1, f1) && AllWellFormed(rs, td2, f2)
  {
    JoinFrom(td, ls, 0, td1, f1, rs, td2, f2)
  }

  /** The output from position `i` on holds exactly the concatenations of a
      left tuple at or after `i` with a right tuple of equal join field. */
  lemma {:induction false} JoinFromMembers(td: TupleDesc, ls: seq<Row>, i: nat, td1: TupleDesc, f1: int,
                                           rs: seq<Row>, td2: TupleDesc, f2: int)
    requires AllWellFormed(ls, td1, f1) && AllWellFormed(rs, td2, f2)
    ensures forall o :: o in JoinFrom(td, ls, i, td1, f1, rs, td2, f2) <==>
      exists j, r :: i <= j < |ls| && r in rs && KeyOf(ls[j], f1) == KeyOf(r, f2) && o == Concat(td, ls[j], r)
    decreases |ls| - i
  {
    if i < |ls| {
      var l := ls[i];
      var ms := Matches(rs, td2, f2, KeyOf(l, f1));
      MatchesMembers(rs, td2, f2, KeyOf(l, f1));
      JoinFromMembers(td, ls, i + 1, td1, f1, rs, td2, f2);
      forall o | o in Emit(td, l, ms)
        ensures exists r :: r in rs && KeyOf(l, f1) == KeyOf(r, f2) && o == Concat(td, l, r)
      {
        var k :| 0 <= k < |ms| && o == Emit(td, l, ms)[k];
        assert ms[k] in ms;
      }
      forall j, r | i <= j < |ls| && r in rs && KeyOf(ls[j], f1) == KeyOf(r, f2)
        ensures Concat(td, ls[j], r) in JoinFrom(td, ls, i, td1, f1, rs, td2, f2)
      {
        if j == i {
          assert r in ms;
          var k :| 0 <= k < |ms| && ms[k] == r;
          assert Emit(td, l, ms)[k] == Concat(td, ls[j], r);
        }
      }
    }
  }

  /** The output holds exactly the concatenations of a left and a right tuple
      with equal join fields; each has the fields of both schemas, the left
      block first. */
  lemma JoinRowsMembers(td: TupleDesc, ls: seq<Row>, td1: TupleDesc, f1: int,
                        rs: seq<Row>, td2: TupleDesc, f2: int)
    requires AllWellFormed(ls, td1, f1) && AllWellFormed(rs, td2, f2)
    ensures forall o :: o in JoinRows(td, ls, td1, f1, rs, td2, f2) <==>
      exists l, r :: l in ls && r in rs && KeyOf(l, f1) == KeyOf(r, f2) && o == Concat(td, l, r)
    ensures forall o :: o in JoinRows(td, ls, td1, f1, rs, td2, f2) ==>
      o.td == td && |o.fields| == NumFields(td1) + NumFields(td2)
  {
    JoinFromMembers(td, ls, 0, td1, f1, rs, td2, f2);
    forall o | o in JoinRows(td, ls, td1, f1, rs, td2, f2)
      ensures exists l, r :: l in ls && r in rs && KeyOf(l, f1) == KeyOf(r, f2) && o == Concat(td, l, r)
    {
      var j, r :| 0 <= j < |ls| && r in rs && KeyOf(ls[j], f1) == KeyOf(r, f2) && o == Concat(td, ls[j], r);
      assert ls[j] in ls;
    }
    forall l, r | l in ls && r in rs && KeyOf(l, f1) == KeyOf(r, f2)
      ensures Concat(td, l, r) in JoinRows(td, ls, td1, f1, rs, td2, f2)
    {
      var j :| 0 <= j < |ls| && ls[j] == l;
      assert KeyOf(ls[j], f1) == KeyOf(r, f2);
    }
  }

  /** A left tuple without a match contributes nothing. */
  lemma UnmatchedLeftIsSkipped(td: TupleDesc, ls: seq<Row>, i: nat, td1: TupleDesc, f1: int,
                               rs: seq<Row>, td2: TupleDesc, f2: int)
    requires AllWellFormed(ls, td1, f1) && AllWellFormed(rs, td2, f2) && i < |ls|
    requires KeyOf(ls[i], f1) !in Build(rs, td2, f2)
    ensures JoinFrom(td, ls, i, td1, f1, rs, td2, f2) == JoinFrom(td, ls, i + 1, td1, f1, rs, td2, f2)
  {
    BuildSpec(rs, td2, f2);
  }

  /** The output `fetchNext` produces from left position `i` on by probing
      the map `m`: a left tuple whose key is missing produces nothing. */
  function ProbeFrom(td: TupleDesc, ls: seq<Row>, i: nat, td1: TupleDesc, f1: int,
                     m: map<Key, seq<Row>>): seq<Row>
    requires AllWellFormed(ls, td1, f1)
    decreases |ls| - i
  {
    if i >= |ls| then []
    else
      var k := KeyOf(ls[i], f1);
      Emit(td, ls[i], if k in m then m[k] else []) + ProbeFrom(td, ls, i + 1, td1, f1, m)
  }

  /** Probing the map built from the right input yields the join. */
  lemma {:induction false} ProbeIsJoin(td: TupleDesc, ls: seq<Row>, i: nat, td1: TupleDesc, f1: int,
                                       rs: seq<Row>, td2: TupleDesc, f2: int)
    requires AllWellFormed(ls, td1, f1) && AllWellFormed(rs, td2, f2)
    ensures ProbeFrom(td, ls, i, td1, f1, Build(rs, td2, f2)) == JoinFrom(td, ls, i, td1, f1, rs, td2, f2)
    decreases |ls| - i
  {
    if i < |ls| {
      BuildLookup(rs, td2, f2, KeyOf(ls[i], f1));
      ProbeIsJoin(td, ls, i + 1, td1, f1, rs, td2, f2);
    }
  }

  /** The position reached in a right-tuple list of the map. */
  datatype ListCursor = ListCursor(list: seq<Row>, pos: nat)

  predicate CursorOk(l: Option<Row>, c: Option<ListCursor>)
  {
    c.Some? ==> l.Some? && c.value.pos <= |c.value.list|
  }

  /** The output still due from the current match list. */
  function ListRest(td: TupleDesc, l: Option<Row>, c: Option<ListCursor>): seq<Row>
    requires CursorOk(l, c)
  {
    if c.Some? then Emit(td, l.value, c.value.list[c.value.pos..]) else []
  }

  /** Taking the next right tuple of the list yields the first output due
      and leaves the rest. */
  lemma ListRestAdvance(td: TupleDesc, l: Row, c: ListCursor)
    requires c.pos < |c.list|
    ensures ListRest(td, Some(l), Some(c)) != []
    ensures ListRest(td, Some(l), Some(c))[0] == Concat(td, l, c.list[c.pos])
    ensures ListRest(td, Some(l), Some(ListCursor(c.list, c.pos + 1))) == ListRest(td, Some(l), Some(c))[1..]
  {
  }

  /** Nothing is due from a used-up list, whatever the left tuple. */
  lemma ListRestDone(td: TupleDesc, l: Option<Row>, c: Option<ListCursor>)
    requires CursorOk(l, c) && !(c.Some? && c.value.pos < |c.value.list|)
    ensures ListRest(td, l, c) == []
  {
  }

  /** A fresh list is due in full. */
  lemma ListRestFresh(td: TupleDesc, l: Row, ms: seq<Row>)
    ensures ListRest(td, Some(l), Some(ListCursor(ms, 0))) == Emit(td, l, ms)
  {
    assert ms[0..] == ms;
  }

  /** The fields of an output tuple, copied one by one as `fetchNext` does:
      the left tuple's fields first, then the right's. */
  method ConcatFields(td: TupleDesc, l: Row, r: Row) returns (fields: seq<Option<Field>>)
    requires |l.fields| == NumFields(l.td)
    requires NumFields(td) == |l.fields| + |r.fields|
    ensures fields == l.fields + r.fields
  {
    fields := [];
    var i := 0;
    while i < NumFields(td)
      invariant 0 <= i <= NumFields(td)
      invariant fields == (l.fields + r.fields)[..i]
    {
      if i < NumFields(l.td) {
        fields := fields + [l.fields[i]];
      } else {
        fields := fields + [r.fields[i - NumFields(l.td)]];
      }
      i := i + 1;
    }
  }

  /** The loop of `open()` over the right input: files each tuple under
      its key, starting a new list for a key seen first. */
  method BuildMap(rs: seq<Row>, td: TupleDesc, f: int) returns (m: map<Key, seq<Row>>)
    requires AllWellFormed(rs, td, f)
    ensures m == Build(rs, td, f)
  {
    m := map[];
    var i := 0;
    while i < |rs|
      invariant 0 <= i <= |rs|
      invariant m == Build(rs[..i], td, f)
    {
      var key := rs[i].fields[f];
      if key !in m {
        m := m[key := []];
      }
      m := m[key := m[key] + [rs[i]]];
      assert rs[..i + 1][..i] == rs[..i];
      i := i + 1;
    }
    assert rs[..i] == rs;
  }

  /** The loop of `fetchNext()` over the left input: reads left tuples from
      position `from` on until one has a key in the map `m`, and returns its
      position, or `|ls|` when none has. Nothing is due from the tuples
      passed over. */
  method SkipUnmatched(ghost td: TupleDesc, ls: seq<Row>, from: nat, td1: TupleDesc, f1: int,
                       m: map<Key, seq<Row>>) returns (i: nat)
    requires AllWellFormed(ls, td1, f1) && from <= |ls|
    ensures from <= i <= |ls|
    ensures forall j :: from <= j < i ==> KeyOf(ls[j], f1) !in m
    ensures i < |ls| ==> KeyOf(ls[i], f1) in m
    ensures ProbeFrom(td, ls, i, td1, f1, m) == ProbeFrom(td, ls, from, td1, f1, m)
  {
    i := from;
    while i < |ls|
      invariant from <= i <= |ls|
      invariant forall j :: from <= j < i ==> KeyOf(ls[j], f1) !in m
      invariant ProbeFrom(td, ls, i, td1, f1, m) == ProbeFrom(td, ls, from, td1, f1, m)
    {
      var key := ls[i].fields[f1];
      if key in m {
        return;
      }
      assert Emit(td, ls[i], []) == [];
      i := i + 1;
    }
  }

  class HashEquiJoin {
    const p: JoinPredicate
    /** The schemas of the left (outer) and right (inner) children. */
    const td1: TupleDesc
    const td2: TupleDesc
    /** The tuples the left and right children deliver. */
    const lefts: seq<Row>
    const rights: seq<Row>
    /** The left child's cursor: the tuples before it have been read. */
    var leftPos: nat
    var isOpen: bool
    var left: Option<Row>
    var right: Option<Row>
    /** `map`: join key to the right tuples carrying it. */
    var joinMap: map<Key, seq<Row>>
    var listIt: Option<ListCursor>

    ghost predicate Valid()
      reads this
    {
      && AllWellFormed(lefts, td1, p.field1)
      && AllWellFormed(rights, td2, p.field2)
      && leftPos <= |lefts|
      && CursorOk(left, listIt)
      && (listIt.Some? ==>
            WellFormed(left.value, td1, p.field1) && AllWellFormed(listIt.value.list, td2, p.field2))
      && (isOpen ==> MapWellFormed(joinMap, td2, p.field2))
    }

    /** The tuples the open join has still to return: the rest of the current
        match list, then the output for the left tuples not yet read. */
    ghost function Pending(): seq<Row>
      reads this
      requires Valid() && isOpen
    {
      ListRest(MergedDesc(td1, td2), left, listIt)
      + ProbeFrom(MergedDesc(td1, td2), lefts, leftPos, td1, p.field1, joinMap)
    }

    /** `HashEquiJoin(p, child1, child2)`: closed, with no cursor and an
        empty map. */
    constructor (p: JoinPredicate, td1: TupleDesc, lefts: seq<Row>, td2: TupleDesc, rights: seq<Row>)
      requires AllWellFormed(lefts, td1, p.field1) && AllWellFormed(rights, td2, p.field2)
      ensures Valid() && !isOpen
      ensures this.p == p && this.td1 == td1 && this.td2 == td2
      ensures this.lefts == lefts && this.rights == rights
      ensures left.None? && right.None? && listIt.None? && joinMap == map[]
    {
      this.p := p;
      this.td1 := td1;
      this.td2 := td2;
      this.lefts := lefts;
      this.rights := rights;
      leftPos := 0;
      isOpen := false;
      left := None;
      right := None;
      joinMap := map[];
      listIt := None;
    }

    /** `getTupleDesc()`: the merge of the children's schemas. */
    method GetTupleDesc() returns (td: TupleDesc)
      ensures td == MergedDesc(td1, td2)
      ensures NumFields(td) == NumFields(td1) + NumFields(td2)
    {
      td := Merge(td1, td2);
    }

    /** `open()`: reopens both children and rebuilds the map from the right
        input. The match-list cursor is left as it was, so after a `close`
        (or on the first open) the join starts its output from the top. */
    method Open()
      requires Valid()
      modifies this
      ensures Valid() && isOpen
      ensures leftPos == 0 && joinMap == Build(rights, td2, p.field2)
      ensures listIt == old(listIt) && left == old(left)
      ensures right == if rights == [] then old(right) else Some(rights[|rights| - 1])
      ensures old(listIt).None? ==> Pending() == JoinRows(MergedDesc(td1, td2), lefts, td1, p.field1, rights, td2, p.field2)
    {
      var m := BuildMap(rights, td2, p.field2);
      ProbeIsJoin(MergedDesc(td1, td2), lefts, 0, td1, p.field1, rights, td2, p.field2);
      BuildWellFormed(rights, td2, p.field2);
      isOpen, leftPos, joinMap := true, 0, m;
      if rights != [] {
        right := Some(rights[|rights| - 1]);
      }
    }

    /** `close()`: closes the children, empties the map and drops the cursor. */
    method Close()
      requires Valid()
      modifies this
      ensures Valid() && !isOpen
      ensures joinMap == map[] && listIt.None?
      ensures leftPos == old(leftPos) && left == old(left) && right == old(right)
    {
      isOpen := false;
      joinMap := map[];
      listIt := None;
    }

    /** `rewind()`: close, then open; the output starts again from the top. */
    method Rewind()
      requires Valid()
      modifies this
      ensures Valid() && isOpen
      ensures joinMap == Build(rights, td2, p.field2)
      ensures Pending() == JoinRows(MergedDesc(td1, td2), lefts, td1, p.field1, rights, td2, p.field2)
    {
      Close();
      Open();
    }

    /** The current match list has a tuple left. */
    predicate HasNextInList()
      reads this
    {
      listIt.Some? && listIt.value.pos < |listIt.value.list|
    }

    /** The first branch of `fetchNext()`: the current left tuple joined
        with the next right tuple of the current match list. */
    method NextInList() returns (o: Row)
      requires Valid() && isOpen && HasNextInList()
      modifies this
      ensures Valid() && isOpen
      ensures old(Pending()) != [] && o == old(Pending())[0] && Pending() == old(Pending())[1..]
      ensures leftPos == old(leftPos) && left == old(left) && joinMap == old(joinMap)
    {
      var l := left.value;
      var r := listIt.value.list[listIt.value.pos];
      ListRestAdvance(MergedDesc(td1, td2), l, listIt.value);
      listIt := Some(ListCursor(listIt.value.list, listIt.value.pos + 1));
      right := Some(r);
      var td := GetTupleDesc();
      var fields := ConcatFields(td, l, r);
      o := Row(td, fields);
    }

    /** `fetchNext()`: the next tuple of the join, or null at the end. */
    method FetchNext() returns (t: Option<Row>)
      requires Valid() && isOpen
      modifies this
      ensures Valid() && isOpen
      ensures old(Pending()) == [] ==> t.None? && Pending() == []
      ensures old(Pending()) != [] ==> t == Some(old(Pending())[0]) && Pending() == old(Pending())[1..]
      ensures joinMap == old(joinMap)
      decreases 2 * (|lefts| - leftPos) + (if HasNextInList() then 1 else 0)
    {
      if HasNextInList() {
        var o := NextInList();
        return Some(o);
      }
      ghost var td := MergedDesc(td1, td2);
      ListRestDone(td, left, listIt);
      ghost var due := ProbeFrom(td, lefts, leftPos, td1, p.field1, joinMap);
      assert old(Pending()) == due;
      var i := SkipUnmatched(td, lefts, leftPos, td1, p.field1, joinMap);
      if i < |lefts| {
        var l := lefts[i];
        var key := l.fields[p.field1];
        assert ProbeFrom(td, lefts, i, td1, p.field1, joinMap) == Emit(td, l, joinMap[key]) + ProbeFrom(td, lefts, i + 1, td1, p.field1, joinMap);
        leftPos, left, listIt := i + 1, Some(l), Some(ListCursor(joinMap[key], 0));
        ListRestFresh(td, l, joinMap[key]);
        assert Pending() == due;
        t := FetchNext();
        return;
      }
      if leftPos < |lefts| {
        left := Some(lefts[|lefts| - 1]);
      }
      leftPos := |lefts|;
      ListRestDone(td, left, listIt);
      return None;
    }
  }
}
