/**
 * The resolver's `fs_map`: for every ParentFileReferenceNumber met so far,
 * the list of records whose parent it is, in the order they were met.
 */
module FsIndex {
  import opened Bytes
  import opened UsnRecord

  /** Parent reference number to its children, as `HashMap<u64, Vec<USN_RECORD_V2>>`. */
  type Index = map<u64, seq<Record>>

  /** The children recorded under p; a parent with no entry has none. */
  function Children(m: Index, p: u64): (cs: seq<Record>)
    ensures p !in m ==> cs == []
    ensures p in m ==> cs == m[p]
  {
    if p in m then m[p] else []
  }

  /**
   * The index after one `entry(parent).or_insert_with(Vec::new).push(r)`:
   * the parent's key is present, r is the last of its children and every
   * other parent keeps its list.
   */
  function Insert(m: Index, r: Record): (m': Index)
    ensures m'.Keys == m.Keys + {r.ParentFileReferenceNumber()}
    ensures m'[r.ParentFileReferenceNumber()] == Children(m, r.ParentFileReferenceNumber()) + [r]
    ensures forall p | p in m && p != r.ParentFileReferenceNumber() :: m'[p] == m[p]
  {
    var p := r.ParentFileReferenceNumber();
    m[p := Children(m, p) + [r]]
  }

  /** The index after inserting rs one after the other, first to last. */
  function InsertAll(m: Index, rs: seq<Record>): Index
    decreases |rs|
  {
    if rs == [] then m else InsertAll(Insert(m, rs[0]), rs[1..])
  }

  /** The records of rs whose parent is p, in their order in rs. */
  function WithParent(rs: seq<Record>, p: u64): (cs: seq<Record>)
    ensures |cs| <= |rs|
    ensures forall i | 0 <= i < |cs| :: cs[i].ParentFileReferenceNumber() == p
  {
    if rs == [] then []
    else if rs[0].ParentFileReferenceNumber() == p then [rs[0]] + WithParent(rs[1..], p)
    else WithParent(rs[1..], p)
  }

  /** Inserting two runs of records is inserting the first, then the second. */
  lemma {:induction false} InsertAllAppend(m: Index, a: seq<Record>, b: seq<Record>)
    ensures InsertAll(m, a + b) == InsertAll(InsertAll(m, a), b)
    decreases |a|
  {
    if a != [] {
      assert (a + b)[0] == a[0] && (a + b)[1..] == a[1..] + b;
      InsertAllAppend(Insert(m, a[0]), a[1..], b);
    } else {
      assert a + b == b;
    }
  }

  /**
   * After inserting rs, the children of every parent are its former children
   * followed by the records of rs that name it, in the order of rs.
   */
  lemma {:induction false} ChildrenInsertAll(m: Index, rs: seq<Record>, p: u64)
    ensures Children(InsertAll(m, rs), p) == Children(m, p) + WithParent(rs, p)
    decreases |rs|
  {
    if rs != [] {
      var m' := Insert(m, rs[0]);
      ChildrenInsertAll(m', rs[1..], p);
      if rs[0].ParentFileReferenceNumber() == p {
        assert Children(m', p) == Children(m, p) + [rs[0]];
      } else {
        assert Children(m', p) == Children(m, p);
      }
    }
  }

  /**
   * Filled from an empty index, a parent's list is exactly the records that
   * name it, in order; a parent that no record names has none.
   */
  lemma ChildrenOfNew(rs: seq<Record>, p: u64)
    ensures Children(InsertAll(map[], rs), p) == WithParent(rs, p)
    ensures (forall i | 0 <= i < |rs| :: rs[i].ParentFileReferenceNumber() != p) ==> Children(InsertAll(map[], rs), p) == []
  {
    ChildrenInsertAll(map[], rs, p);
    if forall i | 0 <= i < |rs| :: rs[i].ParentFileReferenceNumber() != p {
      WithParentNone(rs, p);
    }
  }

  lemma {:induction false} WithParentNone(rs: seq<Record>, p: u64)
    requires forall i | 0 <= i < |rs| :: rs[i].ParentFileReferenceNumber() != p
    ensures WithParent(rs, p) == []
    decreases |rs|
  {
    if rs != [] {
      assert forall i | 0 <= i < |rs| - 1 :: rs[1..][i] == rs[i + 1];
      WithParentNone(rs[1..], p);
    }
  }

  /** Inserting records adds exactly their parents to the keys. */
  lemma {:induction false} KeysInsertAll(m: Index, rs: seq<Record>)
    ensures InsertAll(m, rs).Keys == m.Keys + set i | 0 <= i < |rs| :: rs[i].ParentFileReferenceNumber()
    decreases |rs|
  {
    if rs != [] {
      KeysInsertAll(Insert(m, rs[0]), rs[1..]);
      var parents := set i | 0 <= i < |rs| :: rs[i].ParentFileReferenceNumber();
      var later := set i | 0 <= i < |rs[1..]| :: rs[1..][i].ParentFileReferenceNumber();
      assert parents == {rs[0].ParentFileReferenceNumber()} + later by {
        forall q | q in parents ensures q in {rs[0].ParentFileReferenceNumber()} + later {
          var i :| 0 <= i < |rs| && rs[i].ParentFileReferenceNumber() == q;
          if i > 0 {
            assert rs[1..][i - 1] == rs[i];
          }
        }
        forall q | q in later ensures q in parents {
          var i :| 0 <= i < |rs[1..]| && rs[1..][i].ParentFileReferenceNumber() == q;
          assert rs[i + 1] == rs[1..][i];
        }
      }
    }
  }

  /** The number of records the index holds, over all parents. */
  ghost function Total(m: Index): nat
    decreases |m|
  {
    if m == map[] then 0
    else
      var p :| p in m;
      assert |m - {p}| < |m| by { RemoveShrinks(m, p); }
      |m[p]| + Total(m - {p})
  }

  lemma RemoveShrinks(m: Index, p: u64)
    requires p in m
    ensures |m - {p}| == |m| - 1
  {
    assert (m - {p}).Keys == m.Keys - {p};
  }

  /** Total does not depend on the order in which the parents are visited. */
  lemma {:induction false} TotalRemove(m: Index, p: u64)
    requires p in m
    ensures Total(m) == |m[p]| + Total(m - {p})
    decreases |m|
  {
    var q :| q in m && Total(m) == |m[q]| + Total(m - {q});
    if q != p {
      RemoveShrinks(m, q);
      RemoveShrinks(m, p);
      TotalRemove(m - {q}, p);
      TotalRemove(m - {p}, q);
      assert (m - {q}) - {p} == (m - {p}) - {q};
    }
  }

  /** One insertion adds one record to the total. */
  lemma TotalInsert(m: Index, r: Record)
    ensures Total(Insert(m, r)) == Total(m) + 1
  {
    var p := r.ParentFileReferenceNumber();
    var m' := Insert(m, r);
    TotalRemove(m', p);
    assert m' - {p} == m - {p};
    if p in m {
      TotalRemove(m, p);
    } else {
      assert m - {p} == m;
    }
  }

  /** Inserting N records adds N to the total. */
  lemma {:induction false} TotalInsertAll(m: Index, rs: seq<Record>)
    ensures Total(InsertAll(m, rs)) == Total(m) + |rs|
    decreases |rs|
  {
    if rs != [] {
      TotalInsert(m, rs[0]);
      TotalInsertAll(Insert(m, rs[0]), rs[1..]);
    }
  }

  /** The `fs_map` the resolver fills in place. */
  class FsMap {
    var children: Index

    /** `HashMap::new()`. */
    constructor()
      ensures children == map[]
    {
      children := map[];
    }

    /** `fs_map.entry(parent).or_insert_with(Vec::new).push(r)`. */
    method Push(r: Record)
      modifies this
      ensures children == Insert(old(children), r)
    {
      var p := r.ParentFileReferenceNumber();
      if p !in children {
        children := children[p := []];
      }
      children := children[p := children[p] + [r]];
    }
  }
}
