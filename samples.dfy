/**
  The entities the set manipulators work on: a PQuery (all placements of one
  query sequence), a Sample (the ordered collection of PQueries one worker or
  one aggregation round holds), and the sequence-level notions the
  manipulators rely on: locating a PQuery by id, the records one id owns,
  uniqueness of ids, purging deleted entries and concatenating parts.
*/
module Samples {

  /** The reserved id that marks a PQuery as deleted during collapse: the
      largest value of the sequence-id type, taken to be a 64-bit size_t. */
  const INVALID_ID: nat := 0xFFFF_FFFF_FFFF_FFFF

  /** All placement records of one query sequence. The record type is a
      parameter, as in the templates that manipulate it. */
  datatype PQuery<T> = PQuery(id: nat, header: string, recs: seq<T>)

  /** A Sample, as the manipulators update it in place: a growable vector of
      PQueries. */
  class Sample<T> {
    var pqs: seq<PQuery<T>>

    constructor (pqs: seq<PQuery<T>>)
      ensures this.pqs == pqs
    {
      this.pqs := pqs;
    }
  }

  /** A plain growable vector, for the generic merge that concatenates two
      vectors. */
  class Vector<E> {
    var elems: seq<E>

    constructor (elems: seq<E>)
      ensures this.elems == elems
    {
      this.elems := elems;
    }
  }

  /** The ids of a sequence of PQueries, position by position. */
  function Ids<T>(s: seq<PQuery<T>>): seq<nat>
  {
    seq(|s|, i requires 0 <= i < |s| => s[i].id)
  }

  /** No two entries share an id. */
  ghost predicate Unique<T>(s: seq<PQuery<T>>)
  {
    forall i, j :: 0 <= i < j < |s| ==> s[i].id != s[j].id
  }

  /** Linear search for the first entry with the given id, as std::find does
      when PQueries compare equal exactly when their ids are equal; |s| plays
      the part of the end iterator. */
  function Find<T>(s: seq<PQuery<T>>, id: nat): (k: nat)
    ensures k <= |s|
    ensures k < |s| ==> s[k].id == id
    ensures forall j :: 0 <= j < k ==> s[j].id != id
  {
    if s == [] then 0
    else if s[0].id == id then 0
    else 1 + Find(s[1..], id)
  }

  /** The records of every entry with the given id, concatenated in entry
      order. */
  ghost function RecsOf<T>(s: seq<PQuery<T>>, id: nat): seq<T>
  {
    if s == [] then []
    else RecsOf(s[..|s| - 1], id) + (if s[|s| - 1].id == id then s[|s| - 1].recs else [])
  }

  /** The number of records held by all entries together. */
  ghost function TotalRecs<T>(s: seq<PQuery<T>>): nat
  {
    if s == [] then 0 else TotalRecs(s[..|s| - 1]) + |s[|s| - 1].recs|
  }

  /** The erase/remove_if idiom applied with the sentinel test: a stable
      filter that drops every entry marked with INVALID_ID. */
  function RemoveInvalid<T>(s: seq<PQuery<T>>): (r: seq<PQuery<T>>)
    ensures forall i :: 0 <= i < |r| ==> r[i].id != INVALID_ID
    ensures |r| <= |s|
  {
    if s == [] then []
    else
      var last := s[|s| - 1];
      RemoveInvalid(s[..|s| - 1]) + (if last.id == INVALID_ID then [] else [last])
  }

  /** The concatenation of parts, in order. */
  function Flatten<E>(parts: seq<seq<E>>): seq<E>
  {
    if parts == [] then [] else Flatten(parts[..|parts| - 1]) + parts[|parts| - 1]
  }

  lemma IdsSnoc<T>(s: seq<PQuery<T>>, x: PQuery<T>)
    ensures Ids(s + [x]) == Ids(s) + [x.id]
  {
  }

  /** find reaches an entry exactly when some entry carries the id. */
  lemma FindFound<T>(s: seq<PQuery<T>>, id: nat)
    ensures Find(s, id) < |s| <==> id in Ids(s)
  {
    if id in Ids(s) {
      var j :| 0 <= j < |s| && Ids(s)[j] == id;
      assert s[j].id == id;
    }
    if Find(s, id) < |s| {
      assert Ids(s)[Find(s, id)] == id;
    }
  }

  /** With unique ids, find locates the one entry carrying the id. */
  lemma FindUnique<T>(s: seq<PQuery<T>>, k: nat)
    requires Unique(s) && k < |s|
    ensures Find(s, s[k].id) == k
  {
  }

  lemma FindSnoc<T>(s: seq<PQuery<T>>, x: PQuery<T>, id: nat)
    ensures Find(s + [x], id) == if Find(s, id) < |s| then Find(s, id) else if x.id == id then |s| else |s| + 1
  {
    assert forall j :: 0 <= j < |s| ==> (s + [x])[j] == s[j];
    assert (s + [x])[|s|] == x;
  }

  lemma RecsOfSnoc<T>(s: seq<PQuery<T>>, x: PQuery<T>, id: nat)
    ensures RecsOf(s + [x], id) == RecsOf(s, id) + (if x.id == id then x.recs else [])
  {
    assert (s + [x])[..|s|] == s;
  }

  /** Records of one id in a concatenation are those of each half, in order. */
  lemma {:induction false} RecsOfConcat<T>(a: seq<PQuery<T>>, b: seq<PQuery<T>>, id: nat)
    ensures RecsOf(a + b, id) == RecsOf(a, id) + RecsOf(b, id)
    decreases |b|
  {
    if b == [] {
      assert a + b == a;
    } else {
      var b' := b[..|b| - 1];
      var x := b[|b| - 1];
      assert a + b == (a + b') + [x];
      assert b == b' + [x];
      RecsOfSnoc(a + b', x, id);
      RecsOfConcat(a, b', id);
      RecsOfSnoc(b', x, id);
    }
  }

  /** An id that no entry carries owns no records. */
  lemma {:induction false} RecsOfAbsent<T>(s: seq<PQuery<T>>, id: nat)
    requires id !in Ids(s)
    ensures RecsOf(s, id) == []
  {
    if s != [] {
      var s' := s[..|s| - 1];
      assert s == s' + [s[|s| - 1]];
      IdsSnoc(s', s[|s| - 1]);
      RecsOfAbsent(s', id);
    }
  }

  /** With unique ids, the records of an id are those of its single entry. */
  lemma {:induction false} RecsOfUnique<T>(s: seq<PQuery<T>>, k: nat)
    requires Unique(s) && k < |s|
    ensures RecsOf(s, s[k].id) == s[k].recs
  {
    var s' := s[..|s| - 1];
    var x := s[|s| - 1];
    assert s == s' + [x];
    RecsOfSnoc(s', x, s[k].id);
    if k == |s| - 1 {
      assert s[k].id !in Ids(s');
      RecsOfAbsent(s', s[k].id);
    } else {
      RecsOfUnique(s', k);
    }
  }

  /** Purging the sentinel keeps every other id's records. */
  lemma {:induction false} RecsOfRemoveInvalid<T>(s: seq<PQuery<T>>, id: nat)
    requires id != INVALID_ID
    ensures RecsOf(RemoveInvalid(s), id) == RecsOf(s, id)
  {
    if s != [] {
      var s' := s[..|s| - 1];
      var x := s[|s| - 1];
      assert s == s' + [x];
      RecsOfRemoveInvalid(s', id);
      RecsOfSnoc(s', x, id);
      RemoveInvalidSnoc(s', x);
      if x.id != INVALID_ID {
        RecsOfSnoc(RemoveInvalid(s'), x, id);
      } else {
        assert RemoveInvalid(s) == RemoveInvalid(s');
        assert RecsOf(s, id) == RecsOf(s', id) + [];
      }
    }
  }

  /** Replacing one entry by another with the same id leaves the records of
      every other id as they were. */
  lemma {:induction false} RecsOfUpdateOther<T>(s: seq<PQuery<T>>, k: nat, y: PQuery<T>, id: nat)
    requires k < |s| && s[k].id == y.id && y.id != id
    ensures RecsOf(s[k := y], id) == RecsOf(s, id)
  {
    var s' := s[..|s| - 1];
    var x := s[|s| - 1];
    assert s == s' + [x];
    RecsOfSnoc(s', x, id);
    if k == |s| - 1 {
      assert s[k := y] == s' + [y];
      RecsOfSnoc(s', y, id);
    } else {
      assert s[k := y] == s'[k := y] + [x];
      RecsOfSnoc(s'[k := y], x, id);
      RecsOfUpdateOther(s', k, y, id);
    }
  }

  /** Replacing one entry changes the record count by the difference of the
      two entries' record counts. */
  lemma {:induction false} TotalRecsUpdate<T>(s: seq<PQuery<T>>, k: nat, y: PQuery<T>)
    requires k < |s|
    ensures TotalRecs(s[k := y]) + |s[k].recs| == TotalRecs(s) + |y.recs|
  {
    var s' := s[..|s| - 1];
    var x := s[|s| - 1];
    assert s == s' + [x];
    TotalRecsSnoc(s', x);
    if k == |s| - 1 {
      assert s[k := y] == s' + [y];
      TotalRecsSnoc(s', y);
    } else {
      assert s[k := y] == s'[k := y] + [x];
      TotalRecsSnoc(s'[k := y], x);
      TotalRecsUpdate(s', k, y);
    }
  }

  lemma TotalRecsSnoc<T>(s: seq<PQuery<T>>, x: PQuery<T>)
    ensures TotalRecs(s + [x]) == TotalRecs(s) + |x.recs|
  {
    assert (s + [x])[..|s|] == s;
  }

  lemma RemoveInvalidSnoc<T>(s: seq<PQuery<T>>, x: PQuery<T>)
    ensures RemoveInvalid(s + [x]) == RemoveInvalid(s) + (if x.id == INVALID_ID then [] else [x])
  {
    assert (s + [x])[..|s|] == s;
  }

  /** Purging works part by part. */
  lemma {:induction false} RemoveInvalidConcat<T>(a: seq<PQuery<T>>, b: seq<PQuery<T>>)
    ensures RemoveInvalid(a + b) == RemoveInvalid(a) + RemoveInvalid(b)
    decreases |b|
  {
    if b == [] {
      assert a + b == a;
    } else {
      var b' := b[..|b| - 1];
      var x := b[|b| - 1];
      assert a + b == (a + b') + [x];
      assert b == b' + [x];
      RemoveInvalidSnoc(a + b', x);
      RemoveInvalidSnoc(b', x);
      RemoveInvalidConcat(a, b');
    }
  }

  lemma RemoveInvalidAround<T>(a: seq<PQuery<T>>, x: PQuery<T>, b: seq<PQuery<T>>)
    ensures RemoveInvalid(a + [x] + b)
            == RemoveInvalid(a) + (if x.id == INVALID_ID then [] else [x]) + RemoveInvalid(b)
  {
    RemoveInvalidConcat(a + [x], b);
    RemoveInvalidSnoc(a, x);
  }

  /** Replacing a kept entry by another with the same id replaces it in the
      purged sequence too, at the place given by the kept entries before it. */
  lemma RemoveInvalidUpdate<T>(g: seq<PQuery<T>>, k: nat, y: PQuery<T>)
    requires k < |g| && g[k].id != INVALID_ID && y.id == g[k].id
    ensures var f := |RemoveInvalid(g[..k])|;
            f < |RemoveInvalid(g)| && RemoveInvalid(g)[f] == g[k]
            && RemoveInvalid(g[k := y]) == RemoveInvalid(g)[f := y]
  {
    var a, b := g[..k], g[k + 1..];
    SplitAround(g, k, y);
    RemoveInvalidAround(a, g[k], b);
    RemoveInvalidAround(a, y, b);
    UpdateMiddle(RemoveInvalid(a), g[k], y, RemoveInvalid(b));
  }

  /** Replacing a sentinel entry by another sentinel entry does not change
      the purged sequence. */
  lemma RemoveInvalidUpdateInvalid<T>(g: seq<PQuery<T>>, k: nat, y: PQuery<T>)
    requires k < |g| && g[k].id == INVALID_ID && y.id == INVALID_ID
    ensures RemoveInvalid(g[k := y]) == RemoveInvalid(g)
  {
    var a, b := g[..k], g[k + 1..];
    SplitAround(g, k, y);
    RemoveInvalidAround(a, g[k], b);
    RemoveInvalidAround(a, y, b);
  }

  /** Purging keeps exactly the entries that are not marked, and nothing
      else. */
  lemma {:induction false} RemoveInvalidKeeps<T>(s: seq<PQuery<T>>)
    ensures forall i :: 0 <= i < |RemoveInvalid(s)| ==> RemoveInvalid(s)[i] in s
    ensures forall i :: 0 <= i < |s| && s[i].id != INVALID_ID ==> s[i] in RemoveInvalid(s)
  {
    if s != [] {
      var s' := s[..|s| - 1];
      var x := s[|s| - 1];
      assert s == s' + [x];
      RemoveInvalidSnoc(s', x);
      RemoveInvalidKeeps(s');
    }
  }

  /** Purging is stable: two kept entries appear in the order they had. */
  lemma {:induction false} RemoveInvalidOrder<T>(s: seq<PQuery<T>>, a: nat, b: nat) returns (i: nat, j: nat)
    requires a < b < |RemoveInvalid(s)|
    ensures i < j < |s| && RemoveInvalid(s)[a] == s[i] && RemoveInvalid(s)[b] == s[j]
  {
    var s' := s[..|s| - 1];
    var x := s[|s| - 1];
    assert s == s' + [x];
    RemoveInvalidSnoc(s', x);
    var r' := RemoveInvalid(s');
    if b < |r'| {
      i, j := RemoveInvalidOrder(s', a, b);
    } else {
      RemoveInvalidKeeps(s');
      assert r'[a] in s';
      i :| 0 <= i < |s'| && s'[i] == r'[a];
      j := |s'|;
    }
  }

  /** Purging the sentinel keeps exactly the other ids. */
  lemma IdsRemoveInvalid<T>(s: seq<PQuery<T>>, id: nat)
    ensures id in Ids(RemoveInvalid(s)) <==> id in Ids(s) && id != INVALID_ID
  {
    var r := RemoveInvalid(s);
    RemoveInvalidKeeps(s);
    if id in Ids(r) {
      var j :| 0 <= j < |r| && Ids(r)[j] == id;
      var k :| 0 <= k < |s| && s[k] == r[j];
      assert Ids(s)[k] == id;
    }
    if id in Ids(s) && id != INVALID_ID {
      var k :| 0 <= k < |s| && Ids(s)[k] == id;
      var j :| 0 <= j < |r| && r[j] == s[k];
      assert Ids(r)[j] == id;
    }
  }

  /** Purging leaves a sequence without sentinel entries as it is. */
  lemma {:induction false} RemoveInvalidNone<T>(s: seq<PQuery<T>>)
    requires INVALID_ID !in Ids(s)
    ensures RemoveInvalid(s) == s
  {
    if s != [] {
      var s' := s[..|s| - 1];
      var x := s[|s| - 1];
      assert s == s' + [x];
      IdsSnoc(s', x);
      RemoveInvalidSnoc(s', x);
      RemoveInvalidNone(s');
    }
  }

  /** A sequence around one of its positions. */
  lemma SplitAround<E>(g: seq<E>, k: nat, y: E)
    requires k < |g|
    ensures g == g[..k] + [g[k]] + g[k + 1..]
    ensures g[k := y] == g[..k] + [y] + g[k + 1..]
  {
  }

  lemma ConcatAssoc<E>(a: seq<E>, b: seq<E>, c: seq<E>)
    ensures (a + b) + c == a + (b + c)
  {
  }

  /** A sequence one longer than u that agrees with u and ends in y is
      u + [y]. */
  lemma SnocEq<E>(a: seq<E>, u: seq<E>, y: E)
    requires |a| == |u| + 1 && a[|u|] == y
    requires forall i :: 0 <= i < |u| ==> a[i] == u[i]
    ensures a == u + [y]
  {
  }

  lemma UpdateMiddle<E>(a: seq<E>, u: E, v: E, b: seq<E>)
    ensures (a + [u] + b)[|a| := v] == a + [v] + b
  {
  }

  lemma UpdateSnoc<E>(s: seq<E>, x: E, k: nat, v: E)
    requires k < |s|
    ensures (s + [x])[k := v] == s[k := v] + [x]
  {
  }

  lemma FlattenSnoc<E>(parts: seq<seq<E>>, p: seq<E>)
    ensures Flatten(parts + [p]) == Flatten(parts) + p
  {
    assert (parts + [p])[..|parts|] == parts;
  }
}
