/**
  Merging partial results back into one Sample: the copy merge that
  consolidates PQueries by id, the move merge that appends whole PQueries,
  the merges over a list of parts, and the plain vector concatenation.
*/
module Merge {
  import opened Samples

  /** One step of the copy merge for the source PQuery pq: locate pq's id in
      dest; when absent, add an entry carrying pq's id and header and no
      records; then append pq's records to the located entry. */
  function MergeOne<T>(dest: seq<PQuery<T>>, pq: PQuery<T>): seq<PQuery<T>>
  {
    var k := Find(dest, pq.id);
    var d := if k == |dest| then dest + [PQuery(pq.id, pq.header, [])] else dest;
    d[k := d[k].(recs := d[k].recs + pq.recs)]
  }

  /** The copy merge of src into dest: the source PQueries one after another,
      in order. Every entry dest already has stays at its position with its
      id and header, and its records only grow at the end. */
  function MergeAll<T>(dest: seq<PQuery<T>>, src: seq<PQuery<T>>): (r: seq<PQuery<T>>)
    ensures |dest| <= |r| <= |dest| + |src|
    ensures forall k :: 0 <= k < |dest| ==>
              r[k].id == dest[k].id && r[k].header == dest[k].header && dest[k].recs <= r[k].recs
    decreases |src|
  {
    if src == [] then dest
    else MergeOne(MergeAll(dest, src[..|src| - 1]), src[|src| - 1])
  }

  /** The ids xs, followed by each id of ys that has not been seen yet, in
      order of first appearance. */
  ghost function AddNew(xs: seq<nat>, ys: seq<nat>): seq<nat>
  {
    if ys == [] then xs
    else
      var a := AddNew(xs, ys[..|ys| - 1]);
      if ys[|ys| - 1] in a then a else a + [ys[|ys| - 1]]
  }

  lemma MergeAllSnoc<T>(dest: seq<PQuery<T>>, src: seq<PQuery<T>>, x: PQuery<T>)
    ensures MergeAll(dest, src + [x]) == MergeOne(MergeAll(dest, src), x)
  {
    assert (src + [x])[..|src|] == src;
  }

  /** Merging a PQuery whose id dest lacks appends it unchanged. */
  lemma MergeOneNew<T>(dest: seq<PQuery<T>>, x: PQuery<T>)
    requires x.id !in Ids(dest)
    ensures MergeOne(dest, x) == dest + [x]
  {
    FindFound(dest, x.id);
    assert [] + x.recs == x.recs;
  }

  /** Merging a PQuery whose id dest holds at k appends its records there. */
  lemma MergeOneKnown<T>(dest: seq<PQuery<T>>, x: PQuery<T>, k: nat)
    requires k < |dest| && Find(dest, x.id) == k
    ensures MergeOne(dest, x) == dest[k := dest[k].(recs := dest[k].recs + x.recs)]
  {
  }

  lemma MergeAllPrefix<T>(dest: seq<PQuery<T>>, src: seq<PQuery<T>>, i: nat)
    requires i < |src|
    ensures MergeAll(dest, src[..i + 1]) == MergeOne(MergeAll(dest, src[..i]), src[i])
  {
    assert src[..i + 1] == src[..i] + [src[i]];
    MergeAllSnoc(dest, src[..i], src[i]);
  }

  lemma MergeOneIds<T>(dest: seq<PQuery<T>>, x: PQuery<T>)
    ensures Ids(MergeOne(dest, x)) == if x.id in Ids(dest) then Ids(dest) else Ids(dest) + [x.id]
  {
    FindFound(dest, x.id);
  }

  /** The ids of a merge result are dest's ids followed by the new ids of
      src, in order of first appearance in src. */
  lemma {:induction false} MergeAllIds<T>(dest: seq<PQuery<T>>, src: seq<PQuery<T>>)
    ensures Ids(MergeAll(dest, src)) == AddNew(Ids(dest), Ids(src))
  {
    if src != [] {
      var src' := src[..|src| - 1];
      var x := src[|src| - 1];
      assert src == src' + [x];
      IdsSnoc(src', x);
      assert Ids(src)[..|src| - 1] == Ids(src');
      MergeAllIds(dest, src');
      MergeAllSnoc(dest, src', x);
      MergeOneIds(MergeAll(dest, src'), x);
    }
  }

  lemma {:induction false} AddNewMember(xs: seq<nat>, ys: seq<nat>, id: nat)
    ensures id in AddNew(xs, ys) <==> id in xs || id in ys
  {
    if ys != [] {
      AddNewMember(xs, ys[..|ys| - 1], id);
      assert ys == ys[..|ys| - 1] + [ys[|ys| - 1]];
    }
  }

  /** A merge result carries exactly the ids of dest and of src. */
  lemma MergeAllIdSet<T>(dest: seq<PQuery<T>>, src: seq<PQuery<T>>, id: nat)
    ensures id in Ids(MergeAll(dest, src)) <==> id in Ids(dest) || id in Ids(src)
  {
    MergeAllIds(dest, src);
    AddNewMember(Ids(dest), Ids(src), id);
  }

  lemma MergeOneUnique<T>(dest: seq<PQuery<T>>, x: PQuery<T>)
    requires Unique(dest)
    ensures Unique(MergeOne(dest, x))
  {
    var r := MergeOne(dest, x);
    MergeOneIds(dest, x);
    FindFound(dest, x.id);
    assert forall i :: 0 <= i < |r| ==> Ids(r)[i] == r[i].id;
    assert forall i :: 0 <= i < |dest| ==> Ids(dest)[i] == dest[i].id;
  }

  /** Merging into a Sample whose ids are unique keeps them unique, whatever
      src holds: src entries sharing an id are consolidated too. */
  lemma {:induction false} MergeAllUnique<T>(dest: seq<PQuery<T>>, src: seq<PQuery<T>>)
    requires Unique(dest)
    ensures Unique(MergeAll(dest, src))
  {
    if src != [] {
      var src' := src[..|src| - 1];
      MergeAllUnique(dest, src');
      MergeOneUnique(MergeAll(dest, src'), src[|src| - 1]);
    }
  }

  lemma MergeOneRecs<T>(dest: seq<PQuery<T>>, x: PQuery<T>, id: nat)
    requires Unique(dest)
    ensures RecsOf(MergeOne(dest, x), id) == RecsOf(dest, id) + (if x.id == id then x.recs else [])
  {
    var k := Find(dest, x.id);
    var r := MergeOne(dest, x);
    MergeOneUnique(dest, x);
    if k == |dest| {
      assert [] + x.recs == x.recs;
      assert r == dest + [PQuery(x.id, x.header, x.recs)];
      RecsOfSnoc(dest, PQuery(x.id, x.header, x.recs), id);
    } else if x.id == id {
      RecsOfUnique(dest, k);
      RecsOfUnique(r, k);
    } else {
      RecsOfUpdateOther(dest, k, r[k], id);
    }
  }

  /** With unique ids in dest, every id's records after the merge are its
      records in dest followed by its records in src, in src's order. */
  lemma {:induction false} MergeAllRecs<T>(dest: seq<PQuery<T>>, src: seq<PQuery<T>>, id: nat)
    requires Unique(dest)
    ensures RecsOf(MergeAll(dest, src), id) == RecsOf(dest, id) + RecsOf(src, id)
  {
    if src == [] {
      assert RecsOf(src, id) == [];
    } else {
      var src' := src[..|src| - 1];
      var x := src[|src| - 1];
      assert src == src' + [x];
      MergeAllRecs(dest, src', id);
      MergeAllRecsStep(dest, src', x, id);
    }
  }

  lemma MergeAllRecsStep<T>(dest: seq<PQuery<T>>, src: seq<PQuery<T>>, x: PQuery<T>, id: nat)
    requires Unique(dest)
    requires RecsOf(MergeAll(dest, src), id) == RecsOf(dest, id) + RecsOf(src, id)
    ensures RecsOf(MergeAll(dest, src + [x]), id) == RecsOf(dest, id) + RecsOf(src + [x], id)
  {
    var d := MergeAll(dest, src);
    var extra := if x.id == id then x.recs else [];
    MergeAllUnique(dest, src);
    MergeAllSnoc(dest, src, x);
    MergeOneRecs(d, x, id);
    RecsOfSnoc(src, x, id);
    ConcatAssoc(RecsOf(dest, id), RecsOf(src, id), extra);
  }

  /** No record is lost or duplicated: the record count of dest grows by
      exactly src's. */
  lemma {:induction false} MergeAllTotal<T>(dest: seq<PQuery<T>>, src: seq<PQuery<T>>)
    ensures TotalRecs(MergeAll(dest, src)) == TotalRecs(dest) + TotalRecs(src)
  {
    if src == [] {
      assert TotalRecs(src) == 0;
    } else {
      var src' := src[..|src| - 1];
      var x := src[|src| - 1];
      assert src == src' + [x];
      MergeAllTotal(dest, src');
      MergeAllSnoc(dest, src', x);
      TotalRecsSnoc(src', x);
      var d := MergeAll(dest, src');
      var k := Find(d, x.id);
      if k == |d| {
        var e := PQuery(x.id, x.header, []);
        TotalRecsSnoc(d, e);
        TotalRecsUpdate(d + [e], k, e.(recs := x.recs));
      } else {
        TotalRecsUpdate(d, k, d[k].(recs := d[k].recs + x.recs));
      }
    }
  }

  /** An entry the merge adds to dest carries an id dest did not have, and
      the header of the first src PQuery with that id. */
  lemma {:induction false} MergeAllNewEntry<T>(dest: seq<PQuery<T>>, src: seq<PQuery<T>>, k: nat)
    requires |dest| <= k < |MergeAll(dest, src)|
    ensures MergeAll(dest, src)[k].id !in Ids(dest)
    ensures Find(src, MergeAll(dest, src)[k].id) < |src|
    ensures MergeAll(dest, src)[k].header == src[Find(src, MergeAll(dest, src)[k].id)].header
  {
    var src' := src[..|src| - 1];
    var x := src[|src| - 1];
    assert src == src' + [x];
    var d := MergeAll(dest, src');
    MergeAllSnoc(dest, src', x);
    if x.id in Ids(d) {
      FindFound(d, x.id);
      MergeOneKnown(d, x, Find(d, x.id));
      MergeAllNewEntry(dest, src', k);
      FindSnoc(src', x, d[k].id);
    } else {
      MergeOneNew(d, x);
      if k < |d| {
        MergeAllNewEntry(dest, src', k);
        FindSnoc(src', x, d[k].id);
      } else {
        MergeAllIdSet(dest, src', x.id);
        FindFound(src', x.id);
        FindSnoc(src', x, x.id);
      }
    }
  }

  /** find gives the same answer on a Sample that extends dest with the
      same ids at the same positions, for an id dest holds. */
  lemma FindExtended<T>(dest: seq<PQuery<T>>, d: seq<PQuery<T>>, id: nat)
    requires |dest| <= |d| && Find(dest, id) < |dest|
    requires forall j :: 0 <= j < |dest| ==> d[j].id == dest[j].id
    ensures Find(d, id) == Find(dest, id)
  {
    var g := Find(dest, id);
    assert d[g].id == id;
  }

  /** What a copy merge does to an existing dest entry, whatever dest holds:
      the first entry carrying an id receives the records of every src
      PQuery with that id, in src order; a later entry with the same id is
      left as it was. */
  lemma {:induction false} MergeAllAt<T>(dest: seq<PQuery<T>>, src: seq<PQuery<T>>, k: nat)
    requires k < |dest|
    ensures MergeAll(dest, src)[k].recs
            == dest[k].recs + (if Find(dest, dest[k].id) == k then RecsOf(src, dest[k].id) else [])
  {
    var id := dest[k].id;
    if src == [] {
      assert RecsOf(src, id) == [];
    } else {
      var src' := src[..|src| - 1];
      var x := src[|src| - 1];
      assert src == src' + [x];
      MergeAllAt(dest, src', k);
      MergeAllSnoc(dest, src', x);
      RecsOfSnoc(src', x, id);
      var d := MergeAll(dest, src');
      var extra := if Find(dest, id) == k then RecsOf(src', id) else [];
      if x.id in Ids(d) {
        FindFound(d, x.id);
        var f := Find(d, x.id);
        MergeOneKnown(d, x, f);
        if x.id == id {
          FindExtended(dest, d, id);
          ConcatAssoc(dest[k].recs, extra, x.recs);
        } else {
          assert f != k;
        }
      } else {
        MergeOneNew(d, x);
        FindFound(d, id);
        assert Ids(d)[k] == id;
        assert x.id != id;
      }
    }
  }

  /** What a copy merge puts in an entry it adds, whatever dest holds: the
      entry is the first carrying its id, and it holds the records of every
      src PQuery with that id, in src order. */
  lemma {:induction false} MergeAllAdded<T>(dest: seq<PQuery<T>>, src: seq<PQuery<T>>, k: nat)
    requires |dest| <= k < |MergeAll(dest, src)|
    ensures Find(MergeAll(dest, src), MergeAll(dest, src)[k].id) == k
    ensures MergeAll(dest, src)[k].recs == RecsOf(src, MergeAll(dest, src)[k].id)
  {
    var src' := src[..|src| - 1];
    var x := src[|src| - 1];
    assert src == src' + [x];
    var d := MergeAll(dest, src');
    var r := MergeAll(dest, src);
    MergeAllSnoc(dest, src', x);
    if x.id in Ids(d) {
      FindFound(d, x.id);
      var f := Find(d, x.id);
      MergeOneKnown(d, x, f);
      MergeAllAdded(dest, src', k);
      var id := d[k].id;
      FindExtended(d, r, id);
      RecsOfSnoc(src', x, id);
      if x.id != id {
        assert f != k;
      }
    } else {
      MergeOneNew(d, x);
      if k < |d| {
        MergeAllAdded(dest, src', k);
        var id := d[k].id;
        FindSnoc(d, x, id);
        RecsOfSnoc(src', x, id);
        assert Ids(d)[k] == id;
      } else {
        FindFound(d, x.id);
        FindSnoc(d, x, x.id);
        MergeAllIdSet(dest, src', x.id);
        RecsOfAbsent(src', x.id);
        RecsOfSnoc(src', x, x.id);
      }
    }
  }

  /** Merging a concatenation is merging its halves one after the other, so
      merging parts in a fixed order gives the same result however the parts
      are grouped. */
  lemma {:induction false} MergeAllConcat<T>(dest: seq<PQuery<T>>, a: seq<PQuery<T>>, b: seq<PQuery<T>>)
    ensures MergeAll(dest, a + b) == MergeAll(MergeAll(dest, a), b)
    decreases |b|
  {
    if b == [] {
      assert a + b == a;
    } else {
      var b' := b[..|b| - 1];
      var x := b[|b| - 1];
      assert a + b == (a + b') + [x];
      assert b == b' + [x];
      MergeAllConcat(dest, a, b');
      MergeAllSnoc(dest, a + b', x);
      MergeAllSnoc(MergeAll(dest, a), b', x);
    }
  }

  lemma MergeAllFlattenPrefix<T>(dest: seq<PQuery<T>>, parts: seq<seq<PQuery<T>>>, i: nat)
    requires i < |parts|
    ensures MergeAll(dest, Flatten(parts[..i + 1])) == MergeAll(MergeAll(dest, Flatten(parts[..i])), parts[i])
  {
    assert parts[..i + 1] == parts[..i] + [parts[i]];
    FlattenSnoc(parts[..i], parts[i]);
    MergeAllConcat(dest, Flatten(parts[..i]), parts[i]);
  }

  /** Copy merge: every source PQuery is looked up in dest by id; a missing
      one is added with its id and header; its records are appended to the
      entry found. src is left intact. */
  method Merge<T>(dest: Sample<T>, src: seq<PQuery<T>>)
    modifies dest
    ensures dest.pqs == MergeAll(old(dest.pqs), src)
  {
    for i := 0 to |src|
      invariant dest.pqs == MergeAll(old(dest.pqs), src[..i])
    {
      var pquery := src[i];
      var at := Find(dest.pqs, pquery.id);
      if at == |dest.pqs| {
        dest.pqs := dest.pqs + [PQuery(pquery.id, pquery.header, [])];
      }
      dest.pqs := dest.pqs[at := dest.pqs[at].(recs := dest.pqs[at].recs + pquery.recs)];
      MergeAllPrefix(old(dest.pqs), src, i);
    }
    assert src[..|src|] == src;
  }

  /** Move merge: every source PQuery is appended to dest as a whole, with no
      lookup by id. */
  method MergeMove<T>(dest: Sample<T>, src: seq<PQuery<T>>)
    modifies dest
    ensures dest.pqs == old(dest.pqs) + src
  {
    for i := 0 to |src|
      invariant dest.pqs == old(dest.pqs) + src[..i]
    {
      dest.pqs := dest.pqs + [src[i]];
      assert src[..i + 1] == src[..i] + [src[i]];
    }
    assert src[..|src|] == src;
  }

  /** Copy merge of a list of parts, one part after another in index order. */
  method MergeList<T>(dest: Sample<T>, parts: seq<seq<PQuery<T>>>)
    modifies dest
    ensures dest.pqs == MergeAll(old(dest.pqs), Flatten(parts))
  {
    for i := 0 to |parts|
      invariant dest.pqs == MergeAll(old(dest.pqs), Flatten(parts[..i]))
    {
      Merge(dest, parts[i]);
      MergeAllFlattenPrefix(old(dest.pqs), parts, i);
    }
    assert parts[..|parts|] == parts;
  }

  /** Move merge of a list of parts: dest followed by every part in index
      order. */
  method MergeListMove<T>(dest: Sample<T>, parts: seq<seq<PQuery<T>>>)
    modifies dest
    ensures dest.pqs == old(dest.pqs) + Flatten(parts)
  {
    for i := 0 to |parts|
      invariant dest.pqs == old(dest.pqs) + Flatten(parts[..i])
    {
      MergeMove(dest, parts[i]);
      assert parts[..i + 1] == parts[..i] + [parts[i]];
      FlattenSnoc(parts[..i], parts[i]);
    }
    assert parts[..|parts|] == parts;
  }

  /** The generic vector merge: src's elements are inserted at the end of
      dest. */
  method MergeVectors<E>(dest: Vector<E>, src: seq<E>)
    modifies dest
    ensures dest.elems == old(dest.elems) + src
  {
    dest.elems := dest.elems + src;
  }
}
