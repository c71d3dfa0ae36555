/**
  Collapsing a Sample: every group of PQueries sharing a sequence id is
  consolidated into its first member, which takes over the records of the
  later members; those are marked with the sentinel id and purged at the end.
*/
module Collapse {
  import opened Samples
  import opened Merge

  /** The positions of the entries carrying id, in increasing order: the
      group that collapse gathers for that id. */
  ghost function Positions<T>(s: seq<PQuery<T>>, id: nat): (p: seq<nat>)
    ensures forall m :: 0 <= m < |p| ==> p[m] < |s| && s[p[m]].id == id
    ensures forall a, b :: 0 <= a < b < |p| ==> p[a] < p[b]
  {
    if s == [] then []
    else Positions(s[..|s| - 1], id) + (if s[|s| - 1].id == id then [|s| - 1] else [])
  }

  /** The records of the entries at positions p, concatenated in the order
      of p (positions past the end contribute nothing). */
  ghost function RecsAt<T>(s: seq<PQuery<T>>, p: seq<nat>): seq<T>
  {
    if p == [] then []
    else RecsAt(s, p[..|p| - 1]) + (if p[|p| - 1] < |s| then s[p[|p| - 1]].recs else [])
  }

  /** Entry i of s once the group of its id has been processed: the first
      entry with that id keeps its place and holds the records of the whole
      group; every later one is marked with the sentinel. */
  ghost function Gather<T>(s: seq<PQuery<T>>, i: nat): PQuery<T>
    requires i < |s|
  {
    if Find(s, s[i].id) == i then s[i].(recs := RecsOf(s, s[i].id)) else s[i].(id := INVALID_ID)
  }

  /** The Sample once every group has been processed, before the purge. */
  ghost function Gathered<T>(s: seq<PQuery<T>>): seq<PQuery<T>>
  {
    seq(|s|, i requires 0 <= i < |s| => Gather(s, i))
  }

  /** The Sample after collapse. */
  ghost function Collapsed<T>(s: seq<PQuery<T>>): seq<PQuery<T>>
  {
    RemoveInvalid(Gathered(s))
  }

  /** Entry i while the groups of the ids in done have been processed and
      the others have not. */
  ghost function Stage<T>(s: seq<PQuery<T>>, done: set<nat>, i: nat): PQuery<T>
    requires i < |s|
  {
    if s[i].id in done then Gather(s, i) else s[i]
  }

  lemma PositionsSnoc<T>(s: seq<PQuery<T>>, x: PQuery<T>, id: nat)
    ensures Positions(s + [x], id) == Positions(s, id) + (if x.id == id then [|s|] else [])
  {
    assert (s + [x])[..|s|] == s;
  }

  /** Every entry carrying id belongs to its group. */
  lemma {:induction false} PositionsComplete<T>(s: seq<PQuery<T>>, id: nat, i: nat)
    requires i < |s| && s[i].id == id
    ensures i in Positions(s, id)
  {
    var s' := s[..|s| - 1];
    var x := s[|s| - 1];
    assert s == s' + [x];
    PositionsSnoc(s', x, id);
    if i < |s'| {
      PositionsComplete(s', id, i);
    }
  }

  lemma {:induction false} PositionsAbsent<T>(s: seq<PQuery<T>>, id: nat)
    requires id !in Ids(s)
    ensures Positions(s, id) == []
  {
    if s != [] {
      var s' := s[..|s| - 1];
      var x := s[|s| - 1];
      assert s == s' + [x];
      IdsSnoc(s', x);
      PositionsSnoc(s', x, id);
      PositionsAbsent(s', id);
    }
  }

  lemma {:induction false} RecsAtSnoc<T>(s: seq<PQuery<T>>, x: PQuery<T>, p: seq<nat>)
    requires forall m :: 0 <= m < |p| ==> p[m] < |s|
    ensures RecsAt(s + [x], p) == RecsAt(s, p)
  {
    if p != [] {
      RecsAtSnoc(s, x, p[..|p| - 1]);
    }
  }

  /** The group of an id starts at the entry find locates. */
  lemma PositionsFirst<T>(s: seq<PQuery<T>>, id: nat)
    requires |Positions(s, id)| > 0
    ensures Positions(s, id)[0] == Find(s, id)
  {
    var p := Positions(s, id);
    var f := Find(s, id);
    assert s[p[0]].id == id;
    assert f <= p[0];
    PositionsComplete(s, id, f);
    var m :| 0 <= m < |p| && p[m] == f;
    assert m == 0 || p[0] < p[m];
  }

  /** The records of a group, taken in group order, are all the records of
      its id. */
  lemma {:induction false} PositionsRecs<T>(s: seq<PQuery<T>>, id: nat)
    ensures RecsAt(s, Positions(s, id)) == RecsOf(s, id)
  {
    if s != [] {
      var s' := s[..|s| - 1];
      var x := s[|s| - 1];
      assert s == s' + [x];
      var p' := Positions(s', id);
      PositionsRecs(s', id);
      PositionsSnoc(s', x, id);
      RecsOfSnoc(s', x, id);
      RecsAtSnoc(s', x, p');
      if x.id == id {
        var p := p' + [|s'|];
        assert p[..|p| - 1] == p';
      } else {
        assert Positions(s, id) == p';
        assert RecsOf(s, id) == RecsOf(s', id) + [];
      }
    }
  }

  /** Once the first member of the group of id holds the records of the
      whole group and every other member is marked, each member is as Gather
      says. */
  lemma GroupGathered<T>(s: seq<PQuery<T>>, id: nat, t: seq<PQuery<T>>)
    requires |t| == |s| && |Positions(s, id)| > 0
    requires t[Positions(s, id)[0]] == s[Positions(s, id)[0]].(recs := RecsAt(s, Positions(s, id)))
    requires forall m :: 1 <= m < |Positions(s, id)| ==>
               t[Positions(s, id)[m]] == s[Positions(s, id)[m]].(id := INVALID_ID)
    ensures forall i :: 0 <= i < |s| && s[i].id == id ==> t[i] == Gather(s, i)
  {
    var p := Positions(s, id);
    PositionsFirst(s, id);
    PositionsRecs(s, id);
    forall i | 0 <= i < |s| && s[i].id == id
      ensures t[i] == Gather(s, i)
    {
      PositionsComplete(s, id, i);
      var m :| 0 <= m < |p| && p[m] == i;
    }
  }

  /** The state of the entries t while the group of id is being processed
      and its first j members have been handled: the first member holds the
      records of members 0 to j - 1, members 1 to j - 1 are marked, the rest
      of the group and every entry outside it are as in before. */
  ghost predicate Absorbed<T>(s: seq<PQuery<T>>, id: nat, before: seq<PQuery<T>>, t: seq<PQuery<T>>, j: nat)
  {
    var p := Positions(s, id);
    && |t| == |s| && |before| == |s| && 1 <= j <= |p|
    && (forall i :: 0 <= i < |s| && s[i].id != id ==> t[i] == before[i])
    && t[p[0]] == s[p[0]].(recs := RecsAt(s, p[..j]))
    && (forall m :: 1 <= m < j ==> t[p[m]] == s[p[m]].(id := INVALID_ID))
    && (forall m :: j <= m < |p| ==> t[p[m]] == s[p[m]])
  }

  /** Handling member j of the group: its records are appended to the first
      member's and it is marked. */
  lemma AbsorbStep<T>(s: seq<PQuery<T>>, id: nat, before: seq<PQuery<T>>, t: seq<PQuery<T>>, j: nat, t': seq<PQuery<T>>)
    requires Absorbed(s, id, before, t, j) && j < |Positions(s, id)|
    requires var p := Positions(s, id);
             var u := t[p[0] := t[p[0]].(recs := t[p[0]].recs + t[p[j]].recs)];
             t' == u[p[j] := u[p[j]].(id := INVALID_ID)]
    ensures Absorbed(s, id, before, t', j + 1)
  {
    var p := Positions(s, id);
    RecsAtStep(s, p, j);
    assert p[0] < p[j];
    forall i | 0 <= i < |s| && s[i].id != id
      ensures t'[i] == before[i]
    {
      assert i != p[0] && i != p[j];
    }
    forall m | 1 <= m < j + 1
      ensures t'[p[m]] == s[p[m]].(id := INVALID_ID)
    {
      assert m == j || (p[m] < p[j] && p[0] < p[m]);
    }
    forall m | j + 1 <= m < |p|
      ensures t'[p[m]] == s[p[m]]
    {
      assert p[0] < p[j] < p[m];
    }
  }

  lemma RecsAtStep<T>(s: seq<PQuery<T>>, p: seq<nat>, j: nat)
    requires j < |p| && p[j] < |s|
    ensures RecsAt(s, p[..j + 1]) == RecsAt(s, p[..j]) + s[p[j]].recs
  {
    assert p[..j + 1][..j] == p[..j];
  }

  /** Processing the group of id, whose members sit at positions pqlist:
      the first member takes over the records of the others, in order, and
      each other member is marked with the sentinel. Entries outside the
      group are left as they are. */
  method AbsorbGroup<T>(sample: Sample<T>, pqlist: seq<nat>, ghost s: seq<PQuery<T>>, ghost id: nat)
    requires pqlist == Positions(s, id) && |pqlist| > 1
    requires |sample.pqs| == |s|
    requires forall m :: 0 <= m < |pqlist| ==> sample.pqs[pqlist[m]] == s[pqlist[m]]
    modifies sample
    ensures |sample.pqs| == |s|
    ensures forall i :: 0 <= i < |s| && s[i].id != id ==> sample.pqs[i] == old(sample.pqs[i])
    ensures forall i :: 0 <= i < |s| && s[i].id == id ==> sample.pqs[i] == Gather(s, i)
  {
    ghost var before := sample.pqs;
    var dest := pqlist[0];
    assert pqlist[..1] == [dest];
    assert RecsAt(s, pqlist[..1]) == [] + s[dest].recs;
    for j := 1 to |pqlist|
      invariant Absorbed(s, id, before, sample.pqs, j)
    {
      ghost var t := sample.pqs;
      var at := pqlist[j];
      var src := sample.pqs[at].recs;
      sample.pqs := sample.pqs[dest := sample.pqs[dest].(recs := sample.pqs[dest].recs + src)];
      sample.pqs := sample.pqs[at := sample.pqs[at].(id := INVALID_ID)];
      AbsorbStep(s, id, before, t, j, sample.pqs);
    }
    assert pqlist[..|pqlist|] == pqlist;
    GroupGathered(s, id, sample.pqs);
  }

  /** m maps every id of s, and only those, to the positions carrying it. */
  ghost predicate CollectsPositions<T>(m: map<nat, seq<nat>>, s: seq<PQuery<T>>)
  {
    && (forall id :: id in m <==> id in Ids(s))
    && (forall id :: id in m ==> m[id] == Positions(s, id))
  }

  /** The map the first pass of collapse builds, entry by entry: each
      position is appended to the list of its id, which is created empty
      when the id is first met. */
  ghost function Groups<T>(s: seq<PQuery<T>>): map<nat, seq<nat>>
  {
    if s == [] then map[]
    else
      var m := Groups(s[..|s| - 1]);
      var id := s[|s| - 1].id;
      m[id := (if id in m then m[id] else []) + [|s| - 1]]
  }

  lemma GroupsPrefix<T>(pqs: seq<PQuery<T>>, i: nat)
    requires i < |pqs|
    ensures var m := Groups(pqs[..i]);
            Groups(pqs[..i + 1]) == m[pqs[i].id := (if pqs[i].id in m then m[pqs[i].id] else []) + [i]]
  {
    assert pqs[..i + 1][..i] == pqs[..i];
  }

  /** The map built by the first pass holds the group of every id. */
  lemma {:induction false} GroupsCollect<T>(s: seq<PQuery<T>>)
    ensures CollectsPositions(Groups(s), s)
  {
    if s != [] {
      var s' := s[..|s| - 1];
      GroupsCollect(s');
      CollectStep(Groups(s'), s, |s| - 1);
      assert s[..|s| - 1 + 1] == s;
    }
  }

  /** Recording position i under the id of entry i. */
  lemma CollectStep<T>(m: map<nat, seq<nat>>, pqs: seq<PQuery<T>>, i: nat)
    requires i < |pqs| && CollectsPositions(m, pqs[..i])
    ensures CollectsPositions(m[pqs[i].id := (if pqs[i].id in m then m[pqs[i].id] else []) + [i]], pqs[..i + 1])
  {
    var s, x := pqs[..i], pqs[i];
    assert pqs[..i + 1] == s + [x];
    var m' := m[x.id := (if x.id in m then m[x.id] else []) + [i]];
    IdsSnoc(s, x);
    forall id | id in m'
      ensures m'[id] == Positions(s + [x], id)
    {
      PositionsSnoc(s, x, id);
      if id == x.id && id !in Ids(s) {
        PositionsAbsent(s, id);
      }
    }
  }

  /** The first pass of collapse: the positions of every id, collected in a
      map from id to the increasing list of positions carrying it. */
  method BuildCollapseSet<T>(pqs: seq<PQuery<T>>) returns (collapseSet: map<nat, seq<nat>>)
    ensures CollectsPositions(collapseSet, pqs)
  {
    collapseSet := map[];
    for i := 0 to |pqs|
      invariant collapseSet == Groups(pqs[..i])
    {
      var id := pqs[i].id;
      var list := if id in collapseSet then collapseSet[id] else [];
      GroupsPrefix(pqs, i);
      collapseSet := collapseSet[id := list + [i]];
    }
    assert pqs[..|pqs|] == pqs;
    GroupsCollect(pqs);
  }

  /** The entries t once the groups of the ids in done have been processed
      and the others have not. */
  ghost predicate Staged<T>(s: seq<PQuery<T>>, done: set<nat>, t: seq<PQuery<T>>)
  {
    |t| == |s| && forall i :: 0 <= i < |s| ==> t[i] == Stage(s, done, i)
  }

  /** A group of one entry needs no processing: Gather leaves it as it is. */
  lemma SingleGroup<T>(s: seq<PQuery<T>>, id: nat, done: set<nat>, t: seq<PQuery<T>>)
    requires |Positions(s, id)| <= 1 && Staged(s, done, t)
    ensures Staged(s, done + {id}, t)
  {
    var p := Positions(s, id);
    forall i | 0 <= i < |s| && s[i].id == id
      ensures Gather(s, i) == s[i]
    {
      PositionsComplete(s, id, i);
      PositionsFirst(s, id);
      PositionsRecs(s, id);
      assert p == [i];
      assert RecsAt(s, p) == RecsAt(s, []) + s[i].recs;
    }
  }

  /** Handling one group moves the stage from done to done + {id}. */
  method ProcessGroup<T>(sample: Sample<T>, pqlist: seq<nat>, ghost s: seq<PQuery<T>>, ghost done: set<nat>, ghost id: nat)
    requires pqlist == Positions(s, id) && id !in done
    requires Staged(s, done, sample.pqs)
    modifies sample
    ensures Staged(s, done + {id}, sample.pqs)
  {
    if |pqlist| > 1 {
      forall m | 0 <= m < |pqlist|
        ensures sample.pqs[pqlist[m]] == s[pqlist[m]]
      {
        assert Stage(s, done, pqlist[m]) == s[pqlist[m]];
      }
      AbsorbGroup(sample, pqlist, s, id);
    } else {
      SingleGroup(s, id, done, sample.pqs);
    }
  }

  /** Collapses the PQueries of a Sample that share a sequence id into one:
      the positions of each id are gathered in a map, each group of more
      than one entry is consolidated into its first member (the groups are
      visited in no particular order, as a hash map iterates them), and the
      entries marked with the sentinel are purged in a stable pass. */
  method Collapse<T>(sample: Sample<T>)
    modifies sample
    ensures sample.pqs == Collapsed(old(sample.pqs))
  {
    ghost var s := sample.pqs;
    var collapseSet := BuildCollapseSet(sample.pqs);
    var todo := collapseSet.Keys;
    ghost var done: set<nat> := {};
    while todo != {}
      invariant todo <= collapseSet.Keys && done == collapseSet.Keys - todo
      invariant Staged(s, done, sample.pqs)
      decreases todo
    {
      var id :| id in todo;
      ProcessGroup(sample, collapseSet[id], s, done, id);
      todo := todo - {id};
      done := done + {id};
    }
    forall i | 0 <= i < |s|
      ensures sample.pqs[i] == Gathered(s)[i]
    {
      assert Ids(s)[i] == s[i].id;
    }
    assert sample.pqs == Gathered(s);
    sample.pqs := RemoveInvalid(sample.pqs);
  }

  /** Appending an entry to a Sample before collapse: a new id adds the
      entry as it is; a known id adds its records to the first entry with
      that id and the new entry is marked. */
  lemma GatheredSnoc<T>(s: seq<PQuery<T>>, x: PQuery<T>)
    ensures var g := Gathered(s);
            var k := Find(s, x.id);
            Gathered(s + [x])
            == if k < |s| then g[k := g[k].(recs := g[k].recs + x.recs)] + [x.(id := INVALID_ID)]
               else g + [x]
  {
    if Find(s, x.id) < |s| {
      GatheredSnocKnown(s, x);
    } else {
      GatheredSnocNew(s, x);
    }
  }

  lemma GatheredSnocNew<T>(s: seq<PQuery<T>>, x: PQuery<T>)
    requires Find(s, x.id) == |s|
    ensures Gathered(s + [x]) == Gathered(s) + [x]
  {
    var g, g' := Gathered(s), Gathered(s + [x]);
    forall i | 0 <= i < |s|
      ensures g'[i] == g[i]
    {
      GatheredSnocAt(s, x, i);
    }
    GatherSnocLast(s, x);
    SnocEq(g', g, x);
  }

  lemma GatheredSnocKnown<T>(s: seq<PQuery<T>>, x: PQuery<T>)
    requires Find(s, x.id) < |s|
    ensures var g := Gathered(s);
            var k := Find(s, x.id);
            Gathered(s + [x]) == g[k := g[k].(recs := g[k].recs + x.recs)] + [x.(id := INVALID_ID)]
  {
    var g, g' := Gathered(s), Gathered(s + [x]);
    var k := Find(s, x.id);
    var u := g[k := g[k].(recs := g[k].recs + x.recs)];
    forall i | 0 <= i < |u|
      ensures g'[i] == u[i]
    {
      GatheredSnocKnownAt(s, x, i);
    }
    GatherSnocLast(s, x);
    SnocEq(g', u, x.(id := INVALID_ID));
  }

  lemma GatheredSnocKnownAt<T>(s: seq<PQuery<T>>, x: PQuery<T>, i: nat)
    requires Find(s, x.id) < |s| && i < |s|
    ensures var g := Gathered(s);
            var k := Find(s, x.id);
            Gathered(s + [x])[i] == g[k := g[k].(recs := g[k].recs + x.recs)][i]
  {
    GatheredSnocAt(s, x, i);
  }

  lemma GatheredSnocAt<T>(s: seq<PQuery<T>>, x: PQuery<T>, i: nat)
    requires i < |s|
    ensures var g := Gathered(s);
            Gathered(s + [x])[i] == if i == Find(s, x.id) then g[i].(recs := g[i].recs + x.recs) else g[i]
  {
    GatherSnocOld(s, x, i);
  }

  lemma GatherSnocOld<T>(s: seq<PQuery<T>>, x: PQuery<T>, i: nat)
    requires i < |s|
    ensures Gather(s + [x], i)
            == if s[i].id == x.id && Find(s, x.id) == i then Gather(s, i).(recs := Gather(s, i).recs + x.recs)
               else Gather(s, i)
  {
    FindSnoc(s, x, s[i].id);
    RecsOfSnoc(s, x, s[i].id);
    assert (s + [x])[i] == s[i];
  }

  lemma GatherSnocLast<T>(s: seq<PQuery<T>>, x: PQuery<T>)
    ensures Gather(s + [x], |s|) == if Find(s, x.id) < |s| then x.(id := INVALID_ID) else x
  {
    FindSnoc(s, x, x.id);
    RecsOfSnoc(s, x, x.id);
    assert (s + [x])[|s|] == x;
    if Find(s, x.id) == |s| {
      FindFound(s, x.id);
      RecsOfAbsent(s, x.id);
      assert [] + x.recs == x.recs;
    }
  }

  /** Collapse agrees with merging the unmarked entries, one by one, into an
      empty Sample: each id survives once, at the place of its first entry,
      with that entry's header and the records of all its entries in order. */
  lemma {:induction false} CollapsedIsMerge<T>(s: seq<PQuery<T>>)
    ensures Collapsed(s) == MergeAll([], RemoveInvalid(s))
  {
    if s != [] {
      var s' := s[..|s| - 1];
      var x := s[|s| - 1];
      assert s == s' + [x];
      CollapsedIsMerge(s');
      RemoveInvalidSnoc(s', x);
      if x.id == INVALID_ID {
        CollapsedSnocInvalid(s', x);
        assert RemoveInvalid(s) == RemoveInvalid(s');
      } else {
        MergeAllSnoc([], RemoveInvalid(s'), x);
        if Find(s', x.id) < |s'| {
          CollapsedSnocKnown(s', x);
        } else {
          CollapsedSnocNew(s', x);
        }
      }
    }
  }

  /** Appending an entry with an id not yet present, and not the sentinel,
      appends it to the collapsed Sample. */
  lemma CollapsedSnocNew<T>(s: seq<PQuery<T>>, x: PQuery<T>)
    requires x.id != INVALID_ID && Find(s, x.id) == |s|
    requires Collapsed(s) == MergeAll([], RemoveInvalid(s))
    ensures Collapsed(s + [x]) == MergeOne(Collapsed(s), x)
  {
    var g := Gathered(s);
    GatheredSnoc(s, x);
    assert Gathered(s + [x]) == g + [x];
    RemoveInvalidSnoc(g, x);
    assert Collapsed(s + [x]) == Collapsed(s) + [x];
    FindFound(s, x.id);
    IdsRemoveInvalid(s, x.id);
    MergeAllIdSet([], RemoveInvalid(s), x.id);
    MergeOneNew(Collapsed(s), x);
  }

  /** Appending a marked entry leaves the collapsed Sample as it was. */
  lemma CollapsedSnocInvalid<T>(s: seq<PQuery<T>>, x: PQuery<T>)
    requires x.id == INVALID_ID
    ensures Collapsed(s + [x]) == Collapsed(s)
  {
    GatheredSnoc(s, x);
    var g := Gathered(s);
    var k := Find(s, x.id);
    if k < |s| {
      var g' := g[k := g[k].(recs := g[k].recs + x.recs)];
      RemoveInvalidSnoc(g', x.(id := INVALID_ID));
      RemoveInvalidUpdateInvalid(g, k, g[k].(recs := g[k].recs + x.recs));
    } else {
      RemoveInvalidSnoc(g, x);
    }
  }

  /** Appending an entry whose id is already present, and is not the
      sentinel, is merging it into the collapsed Sample. */
  lemma CollapsedSnocKnown<T>(s: seq<PQuery<T>>, x: PQuery<T>)
    requires x.id != INVALID_ID && Find(s, x.id) < |s|
    requires Collapsed(s) == MergeAll([], RemoveInvalid(s))
    ensures Collapsed(s + [x]) == MergeOne(Collapsed(s), x)
  {
    var c := Collapsed(s);
    var f := CollapsedSnocAt(s, x);
    MergeAllUnique([], RemoveInvalid(s));
    FindUnique(c, f);
    MergeOneKnown(c, x, f);
  }

  /** Appending an entry whose id is already present, and is not the
      sentinel, adds its records to the surviving entry of that id. */
  lemma CollapsedSnocAt<T>(s: seq<PQuery<T>>, x: PQuery<T>) returns (f: nat)
    requires x.id != INVALID_ID && Find(s, x.id) < |s|
    ensures f < |Collapsed(s)| && Collapsed(s)[f].id == x.id
    ensures Collapsed(s + [x]) == Collapsed(s)[f := Collapsed(s)[f].(recs := Collapsed(s)[f].recs + x.recs)]
  {
    var g := Gathered(s);
    var k := Find(s, x.id);
    var y := g[k].(recs := g[k].recs + x.recs);
    GatheredSnoc(s, x);
    assert Gathered(s + [x]) == g[k := y] + [x.(id := INVALID_ID)];
    RemoveInvalidSnoc(g[k := y], x.(id := INVALID_ID));
    assert Collapsed(s + [x]) == RemoveInvalid(g[k := y]) + [];
    RemoveInvalidUpdate(g, k, y);
    f := |RemoveInvalid(g[..k])|;
  }

  /** After collapse no two PQueries share an id. */
  lemma CollapsedUnique<T>(s: seq<PQuery<T>>)
    ensures Unique(Collapsed(s))
  {
    CollapsedIsMerge(s);
    MergeAllUnique([], RemoveInvalid(s));
  }

  /** Collapse keeps exactly the ids of the Sample other than the sentinel,
      each once, in the order of their first occurrence. */
  lemma CollapsedIds<T>(s: seq<PQuery<T>>, id: nat)
    ensures Ids(Collapsed(s)) == AddNew([], Ids(RemoveInvalid(s)))
    ensures id in Ids(Collapsed(s)) <==> id in Ids(s) && id != INVALID_ID
  {
    CollapsedIsMerge(s);
    MergeAllIds([], RemoveInvalid(s));
    MergeAllIdSet([], RemoveInvalid(s), id);
    IdsRemoveInvalid(s, id);
  }

  /** No record of an id other than the sentinel is lost, duplicated or
      reordered by collapse. */
  lemma CollapsedRecs<T>(s: seq<PQuery<T>>, id: nat)
    requires id != INVALID_ID
    ensures RecsOf(Collapsed(s), id) == RecsOf(s, id)
  {
    CollapsedIsMerge(s);
    MergeAllRecs([], RemoveInvalid(s), id);
    RecsOfRemoveInvalid(s, id);
  }

  /** The number of records after collapse is the number held by the
      entries that were not already marked. */
  lemma CollapsedTotal<T>(s: seq<PQuery<T>>)
    ensures TotalRecs(Collapsed(s)) == TotalRecs(RemoveInvalid(s))
    ensures INVALID_ID !in Ids(s) ==> TotalRecs(Collapsed(s)) == TotalRecs(s)
  {
    CollapsedIsMerge(s);
    MergeAllTotal([], RemoveInvalid(s));
    if INVALID_ID !in Ids(s) {
      RemoveInvalidNone(s);
    }
  }

  /** Each surviving PQuery is the first entry of its id in the Sample, with
      its header, holding the records of every entry with that id. */
  lemma CollapsedEntry<T>(s: seq<PQuery<T>>, k: nat)
    requires k < |Collapsed(s)|
    ensures var e := Collapsed(s)[k];
            Find(s, e.id) < |s| && e == s[Find(s, e.id)].(recs := RecsOf(s, e.id))
  {
    var g := Gathered(s);
    var e := Collapsed(s)[k];
    RemoveInvalidKeeps(g);
    var i :| 0 <= i < |g| && g[i] == e;
    assert Gather(s, i) == e;
  }

  /** The survivors keep the relative order of their first occurrences. */
  lemma CollapsedOrder<T>(s: seq<PQuery<T>>, a: nat, b: nat)
    requires a < b < |Collapsed(s)|
    ensures Find(s, Collapsed(s)[a].id) < Find(s, Collapsed(s)[b].id)
  {
    var i, j := RemoveInvalidOrder(Gathered(s), a, b);
    assert Gather(s, i) == Collapsed(s)[a];
    assert Gather(s, j) == Collapsed(s)[b];
  }

  /** A Sample whose ids are distinct and unmarked is left as it is. */
  lemma CollapsedFixpoint<T>(s: seq<PQuery<T>>)
    requires Unique(s) && INVALID_ID !in Ids(s)
    ensures Collapsed(s) == s
  {
    forall i | 0 <= i < |s|
      ensures Gathered(s)[i] == s[i]
    {
      FindUnique(s, i);
      RecsOfUnique(s, i);
    }
    assert Gathered(s) == s;
    RemoveInvalidNone(s);
  }

  /** Collapsing twice is collapsing once. */
  lemma CollapseIdempotent<T>(s: seq<PQuery<T>>)
    ensures Collapsed(Collapsed(s)) == Collapsed(s)
  {
    var c := Collapsed(s);
    CollapsedUnique(s);
    CollapsedIds(s, INVALID_ID);
    CollapsedFixpoint(c);
  }

  /** The fallback collapse for values of any other type: nothing changes. */
  method CollapseAny<C>(thing: C) returns (result: C)
    ensures result == thing
  {
    result := thing;
  }
}
