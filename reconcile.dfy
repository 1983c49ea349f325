/**
 * Listing reconciliation (updateFileNodeData, purgeUnmatchedChildren,
 * insertFile) on metadata records: which existing children a listing
 * retains, and what the list of children records becomes once every entry
 * of the listing has been inserted.
 */
module Reconcile {
  import opened Wrappers
  import opened Metadata
  import opened Tree

  /** A non-"." entry of the listing describes the remote entry `k`. */
  predicate Listed(list: seq<FileMeta>, k: Key)
  {
    exists i :: 0 <= i < |list| && !IsSelfEntry(list[i]) && KeyOf(list[i]) == k
  }

  ghost function ListedKeys(list: seq<FileMeta>): (r: set<Key>)
  {
    set i | 0 <= i < |list| && !IsSelfEntry(list[i]) :: KeyOf(list[i])
  }

  ghost function KeySet(ms: seq<FileMeta>): (r: set<Key>)
  {
    set i | 0 <= i < |ms| :: KeyOf(ms[i])
  }

  /** The position of the first record of `ms` for the remote entry `k`. */
  function FindKey(ms: seq<FileMeta>, k: Key): (r: Option<nat>)
    ensures r.Some? ==> r.value < |ms| && KeyOf(ms[r.value]) == k
    ensures r.Some? ==> forall j :: 0 <= j < r.value ==> KeyOf(ms[j]) != k
    ensures r.None? <==> forall j :: 0 <= j < |ms| ==> KeyOf(ms[j]) != k
  {
    if ms == [] then None
    else match FindKey(ms[..|ms| - 1], k)
      case Some(i) => Some(i)
      case None => if KeyOf(ms[|ms| - 1]) == k then Some(|ms| - 1) else None
  }

  /**
   * insertFile on the children's records: a "." entry is skipped; an entry
   * matching a child on (full path, kind) refreshes that child's size; any
   * other entry becomes a new last child.
   */
  function InsertOne(ms: seq<FileMeta>, e: FileMeta): (r: seq<FileMeta>)
  {
    if IsSelfEntry(e) then ms
    else match FindKey(ms, KeyOf(e))
      case Some(i) => ms[i := ms[i].(size := e.size)]
      case None => ms + [e]
  }

  /** The children's records after insertFile was called for each entry of `list` in order. */
  function InsertAll(ms: seq<FileMeta>, list: seq<FileMeta>): (r: seq<FileMeta>)
    decreases |list|
  {
    if list == [] then ms
    else InsertOne(InsertAll(ms, list[..|list| - 1]), list[|list| - 1])
  }

  /** The size carried by the last non-"." entry of `list` for `k`, if any. */
  function LastSize(list: seq<FileMeta>, k: Key): (r: Option<int>)
    ensures r.Some? <==> Listed(list, k)
    decreases |list|
  {
    if list == [] then None
    else if !IsSelfEntry(list[|list| - 1]) && KeyOf(list[|list| - 1]) == k then Some(list[|list| - 1].size)
    else
      ListedSnoc(list, k);
      LastSize(list[..|list| - 1], k)
  }

  /** A key is listed by a non-empty listing iff its prefix lists it or its last entry does. */
  lemma ListedSnoc(list: seq<FileMeta>, k: Key)
    requires list != []
    ensures Listed(list, k) <==>
      Listed(list[..|list| - 1], k) || (!IsSelfEntry(list[|list| - 1]) && KeyOf(list[|list| - 1]) == k)
  {
    var pre := list[..|list| - 1];
    if Listed(list, k) {
      var i :| 0 <= i < |list| && !IsSelfEntry(list[i]) && KeyOf(list[i]) == k;
      if i < |list| - 1 { assert pre[i] == list[i]; }
    }
    if Listed(pre, k) {
      var i :| 0 <= i < |pre| && !IsSelfEntry(pre[i]) && KeyOf(pre[i]) == k;
      assert list[i] == pre[i];
    }
  }

  lemma ListedKeysSnoc(list: seq<FileMeta>)
    requires list != []
    ensures ListedKeys(list) == ListedKeys(list[..|list| - 1]) +
      (if IsSelfEntry(list[|list| - 1]) then {} else {KeyOf(list[|list| - 1])})
  {
    var pre := list[..|list| - 1];
    forall k | k in ListedKeys(list)
      ensures k in ListedKeys(pre) || (!IsSelfEntry(list[|list| - 1]) && k == KeyOf(list[|list| - 1]))
    {
      var i :| 0 <= i < |list| && !IsSelfEntry(list[i]) && KeyOf(list[i]) == k;
      if i < |list| - 1 { assert pre[i] == list[i]; }
    }
    forall k | k in ListedKeys(pre) ensures k in ListedKeys(list)
    {
      var i :| 0 <= i < |pre| && !IsSelfEntry(pre[i]) && KeyOf(pre[i]) == k;
      assert list[i] == pre[i];
    }
  }

  lemma ListedIffListedKeys(list: seq<FileMeta>, k: Key)
    ensures Listed(list, k) <==> k in ListedKeys(list)
  {
    if k in ListedKeys(list) {
      var i :| 0 <= i < |list| && !IsSelfEntry(list[i]) && KeyOf(list[i]) == k;
    }
  }

  /** The records after one insertion: the same records (one size refreshed) and possibly the new one last. */
  lemma InsertOneShape(ms: seq<FileMeta>, e: FileMeta)
    ensures var r := InsertOne(ms, e);
      && |ms| <= |r| <= |ms| + 1
      && (forall i :: 0 <= i < |ms| ==> r[i] == ms[i].(size := r[i].size))
      && (forall i :: 0 <= i < |ms| && (IsSelfEntry(e) || KeyOf(ms[i]) != KeyOf(e)) ==> r[i] == ms[i])
      && (|r| == |ms| + 1 <==> !IsSelfEntry(e) && KeyOf(e) !in KeySet(ms))
      && (|r| == |ms| + 1 ==> r[|ms|] == e)
      && KeySet(r) == KeySet(ms) + (if IsSelfEntry(e) then {} else {KeyOf(e)})
  {
    var r := InsertOne(ms, e);
    if !IsSelfEntry(e) {
      match FindKey(ms, KeyOf(e))
      case Some(i) =>
        assert KeyOf(e) in KeySet(ms);
        assert forall j :: 0 <= j < |r| ==> KeyOf(r[j]) == KeyOf(ms[j]);
        assert KeySet(r) == KeySet(ms) by {
          forall k | k in KeySet(r) ensures k in KeySet(ms) {
            var j :| 0 <= j < |r| && KeyOf(r[j]) == k;
          }
          forall k | k in KeySet(ms) ensures k in KeySet(r) {
            var j :| 0 <= j < |ms| && KeyOf(ms[j]) == k;
            assert KeyOf(r[j]) == k;
          }
        }
      case None =>
        assert KeySet(r) == KeySet(ms) + {KeyOf(e)} by {
          forall k | k in KeySet(r) ensures k in KeySet(ms) + {KeyOf(e)} {
            var j :| 0 <= j < |r| && KeyOf(r[j]) == k;
            if j < |ms| { assert r[j] == ms[j]; }
          }
          forall k | k in KeySet(ms) + {KeyOf(e)} ensures k in KeySet(r) {
            if k == KeyOf(e) {
              assert KeyOf(r[|ms|]) == k;
            } else {
              var j :| 0 <= j < |ms| && KeyOf(ms[j]) == k;
              assert r[j] == ms[j];
            }
          }
        }
        assert KeyOf(e) !in KeySet(ms);
    }
  }

  /**
   * Inserting a listing keeps every existing record in place (only its size
   * may change), adds records only after them, and leaves exactly the keys
   * already present plus the keys of the listing's non-"." entries.
   */
  lemma {:induction false} InsertAllShape(ms: seq<FileMeta>, list: seq<FileMeta>)
    ensures var r := InsertAll(ms, list);
      && |ms| <= |r|
      && (forall i :: 0 <= i < |ms| ==> r[i] == ms[i].(size := r[i].size))
      && (forall i :: 0 <= i < |ms| && !Listed(list, KeyOf(ms[i])) ==> r[i] == ms[i])
      && KeySet(r) == KeySet(ms) + ListedKeys(list)
    decreases |list|
  {
    if list == [] {
      assert ListedKeys(list) == {};
    } else {
      var pre, e := list[..|list| - 1], list[|list| - 1];
      InsertAllShape(ms, pre);
      InsertOneShape(InsertAll(ms, pre), e);
      ListedKeysSnoc(list);
      forall i | 0 <= i < |ms| && !Listed(list, KeyOf(ms[i])) ensures InsertAll(ms, list)[i] == ms[i] {
        ListedSnoc(list, KeyOf(ms[i]));
      }
    }
  }

  /** Inserting a listing never creates two records for the same remote entry. */
  lemma {:induction false} InsertAllUnique(ms: seq<FileMeta>, list: seq<FileMeta>)
    requires UniqueKeys(ms)
    ensures UniqueKeys(InsertAll(ms, list))
    decreases |list|
  {
    if list != [] {
      var pre, e := list[..|list| - 1], list[|list| - 1];
      InsertAllUnique(ms, pre);
      var x := InsertAll(ms, pre);
      InsertOneShape(x, e);
      var r := InsertOne(x, e);
      forall i, j | 0 <= i < j < |r| ensures KeyOf(r[i]) != KeyOf(r[j]) {
        if j == |x| {
          assert r[j] == e && KeyOf(e) !in KeySet(x);
          assert KeyOf(r[i]) == KeyOf(x[i]);
        } else {
          assert KeyOf(r[i]) == KeyOf(x[i]) && KeyOf(r[j]) == KeyOf(x[j]);
        }
      }
    }
  }

  /** Every record the listing mentions carries the size of the last entry that mentions it. */
  ghost predicate SizesFollow(ms: seq<FileMeta>, list: seq<FileMeta>)
  {
    forall i :: 0 <= i < |ms| && Listed(list, KeyOf(ms[i])) ==> LastSize(list, KeyOf(ms[i])) == Some(ms[i].size)
  }

  /**
   * After inserting a listing, every record the listing mentions carries the
   * size of the last entry that mentions it.
   */
  lemma {:induction false} InsertAllSizes(ms: seq<FileMeta>, list: seq<FileMeta>)
    requires UniqueKeys(ms)
    ensures SizesFollow(InsertAll(ms, list), list)
    decreases |list|
  {
    if list != [] {
      var pre, e := list[..|list| - 1], list[|list| - 1];
      InsertAllSizes(ms, pre);
      InsertAllUnique(ms, pre);
      var x := InsertAll(ms, pre);
      InsertOneShape(x, e);
      var r := InsertOne(x, e);
      forall i | 0 <= i < |r| && Listed(list, KeyOf(r[i])) ensures LastSize(list, KeyOf(r[i])) == Some(r[i].size) {
        var k := KeyOf(r[i]);
        if !IsSelfEntry(e) && k == KeyOf(e) {
          assert LastSize(list, k) == Some(e.size);
          if i < |x| {
            assert KeyOf(x[i]) == k;
            var f := FindKey(x, k);
            assert f.value == i;
            assert r == x[i := x[i].(size := e.size)];
          } else {
            assert r[i] == e;
          }
        } else {
          assert i < |x|;
          assert r[i] == x[i];
          ListedSnoc(list, k);
          assert LastSize(list, k) == LastSize(pre, k);
        }
      }
    }
  }

  /** A listing all of whose entries are already present adds no record. */
  lemma {:induction false} InsertAllKnownAddsNothing(ms: seq<FileMeta>, list: seq<FileMeta>)
    requires ListedKeys(list) <= KeySet(ms)
    ensures |InsertAll(ms, list)| == |ms|
    decreases |list|
  {
    if list != [] {
      var pre, e := list[..|list| - 1], list[|list| - 1];
      ListedKeysSnoc(list);
      InsertAllKnownAddsNothing(ms, pre);
      InsertAllShape(ms, pre);
      InsertOneShape(InsertAll(ms, pre), e);
    }
  }

  /**
   * Inserting the same listing a second time changes nothing: no record is
   * added and every size is already the one the listing gives.
   */
  lemma InsertAllIdempotent(ms: seq<FileMeta>, list: seq<FileMeta>)
    requires UniqueKeys(ms)
    ensures InsertAll(InsertAll(ms, list), list) == InsertAll(ms, list)
  {
    var r := InsertAll(ms, list);
    InsertAllShape(ms, list);
    InsertAllUnique(ms, list);
    InsertAllSizes(ms, list);
    var r2 := InsertAll(r, list);
    InsertAllShape(r, list);
    InsertAllSizes(r, list);
    InsertAllKnownAddsNothing(r, list);
    forall i | 0 <= i < |r| ensures r2[i] == r[i] {
      if Listed(list, KeyOf(r[i])) {
        assert KeyOf(r2[i]) == KeyOf(r[i]);
      }
    }
  }

  // ---------------------------------------------------------------------
  // Which existing children survive (purgeUnmatchedChildren)
  // ---------------------------------------------------------------------

  /** The children, in their order, that a non-"." entry of the listing matches on (full path, kind). */
  function Retain(fs: Fields, kids: seq<NodeId>, list: seq<FileMeta>): (r: seq<NodeId>)
    requires forall i :: 0 <= i < |kids| ==> kids[i] in fs
    ensures |r| <= |kids|
    ensures forall i :: 0 <= i < |r| ==> r[i] in fs
    ensures forall x :: x in r <==> x in kids && Listed(list, KeyOf(fs[x].meta))
  {
    if kids == [] then []
    else
      (if Listed(list, KeyOf(fs[kids[0]].meta)) then [kids[0]] else [])
      + Retain(fs, kids[1..], list)
  }

  /** Retaining from a list with a node in front: that node if matched, then the rest retained. */
  lemma RetainCons(fs: Fields, x: NodeId, s: seq<NodeId>, list: seq<FileMeta>)
    requires x in fs && forall i :: 0 <= i < |s| ==> s[i] in fs
    ensures forall i :: 0 <= i < |[x] + s| ==> ([x] + s)[i] in fs
    ensures Retain(fs, [x] + s, list) == (if Listed(list, KeyOf(fs[x].meta)) then [x] else []) + Retain(fs, s, list)
  {
    var xs := [x] + s;
    assert xs[0] == x && xs[1..] == s;
  }

  /** Retaining distributes over concatenation. */
  lemma {:induction false} RetainAppend(fs: Fields, a: seq<NodeId>, b: seq<NodeId>, list: seq<FileMeta>)
    requires forall i :: 0 <= i < |a| ==> a[i] in fs
    requires forall i :: 0 <= i < |b| ==> b[i] in fs
    ensures forall i :: 0 <= i < |a + b| ==> (a + b)[i] in fs
    ensures Retain(fs, a + b, list) == Retain(fs, a, list) + Retain(fs, b, list)
  {
    if a == [] {
      assert a + b == b;
    } else {
      var x, t := a[0], a[1..];
      var h := if Listed(list, KeyOf(fs[x].meta)) then [x] else [];
      assert a == [x] + t;
      assert a + b == [x] + (t + b);
      RetainAppend(fs, t, b, list);
      RetainCons(fs, x, t, list);
      RetainCons(fs, x, t + b, list);
      ConcatAssoc(h, Retain(fs, t, list), Retain(fs, b, list));
    }
  }

  lemma ConcatAssoc(a: seq<NodeId>, b: seq<NodeId>, c: seq<NodeId>)
    ensures (a + b) + c == a + (b + c)
  {
  }

  /** Retaining from a list is retaining from its front part, then keeping its last node if matched. */
  lemma RetainSnoc(fs: Fields, kids: seq<NodeId>, list: seq<FileMeta>)
    requires kids != [] && forall i :: 0 <= i < |kids| ==> kids[i] in fs
    ensures var c := kids[|kids| - 1];
      Retain(fs, kids, list) ==
        Retain(fs, kids[..|kids| - 1], list) + (if Listed(list, KeyOf(fs[c].meta)) then [c] else [])
  {
    var pre, c := kids[..|kids| - 1], kids[|kids| - 1];
    assert kids == pre + [c];
    RetainAppend(fs, pre, [c], list);
    assert [c][1..] == [];
  }

  /** Which children are retained depends only on their records. */
  lemma {:induction false} RetainFrame(f0: Fields, f1: Fields, kids: seq<NodeId>, list: seq<FileMeta>)
    requires forall i :: 0 <= i < |kids| ==> kids[i] in f0 && kids[i] in f1 && f0[kids[i]].meta == f1[kids[i]].meta
    ensures Retain(f0, kids, list) == Retain(f1, kids, list)
  {
    if kids != [] {
      RetainFrame(f0, f1, kids[1..], list);
    }
  }

  /** Putting a record with a fresh key in front of unique records keeps them unique. */
  lemma UniqueCons(fs: Fields, x: NodeId, tail: seq<NodeId>)
    requires x in fs && forall i :: 0 <= i < |tail| ==> tail[i] in fs
    requires UniqueKeys(Metas(fs, tail))
    requires forall i :: 0 <= i < |tail| ==> KeyOf(fs[tail[i]].meta) != KeyOf(fs[x].meta)
    ensures UniqueKeys(Metas(fs, [x] + tail))
  {
    var ms := Metas(fs, [x] + tail);
    forall i, j | 0 <= i < j < |ms| ensures KeyOf(ms[i]) != KeyOf(ms[j]) {
      assert ms[j] == Metas(fs, tail)[j - 1];
      if i > 0 { assert ms[i] == Metas(fs, tail)[i - 1]; }
    }
  }

  /** Dropping the first record keeps the rest unique and apart from it. */
  lemma UniqueTail(fs: Fields, kids: seq<NodeId>)
    requires kids != [] && forall i :: 0 <= i < |kids| ==> kids[i] in fs
    requires UniqueKeys(Metas(fs, kids))
    ensures UniqueKeys(Metas(fs, kids[1..]))
    ensures forall x :: x in kids[1..] ==> KeyOf(fs[x].meta) != KeyOf(fs[kids[0]].meta)
  {
    var ms, rest := Metas(fs, kids), kids[1..];
    forall i, j | 0 <= i < j < |rest| ensures KeyOf(Metas(fs, rest)[i]) != KeyOf(Metas(fs, rest)[j]) {
      assert Metas(fs, rest)[i] == ms[i + 1] && Metas(fs, rest)[j] == ms[j + 1];
    }
    forall x | x in rest ensures KeyOf(fs[x].meta) != KeyOf(fs[kids[0]].meta) {
      var q :| 0 <= q < |rest| && rest[q] == x;
      assert ms[q + 1] == fs[x].meta;
    }
  }

  /** The retained children inherit the uniqueness of the children's keys. */
  lemma {:induction false} RetainUnique(fs: Fields, kids: seq<NodeId>, list: seq<FileMeta>)
    requires forall i :: 0 <= i < |kids| ==> kids[i] in fs
    requires UniqueKeys(Metas(fs, kids))
    ensures UniqueKeys(Metas(fs, Retain(fs, kids, list)))
  {
    if kids != [] {
      UniqueTail(fs, kids);
      RetainUnique(fs, kids[1..], list);
      var tail := Retain(fs, kids[1..], list);
      if Listed(list, KeyOf(fs[kids[0]].meta)) {
        assert forall i :: 0 <= i < |tail| ==> tail[i] in kids[1..];
        UniqueCons(fs, kids[0], tail);
      }
    }
  }

  /** Every child whose key the listing mentions is retained, and no other. */
  lemma RetainKeys(fs: Fields, kids: seq<NodeId>, list: seq<FileMeta>)
    requires forall i :: 0 <= i < |kids| ==> kids[i] in fs
    ensures KeySet(Metas(fs, Retain(fs, kids, list))) == KeySet(Metas(fs, kids)) * ListedKeys(list)
  {
    var r := Retain(fs, kids, list);
    forall k | k in KeySet(Metas(fs, r)) ensures k in KeySet(Metas(fs, kids)) * ListedKeys(list) {
      var i :| 0 <= i < |r| && KeyOf(Metas(fs, r)[i]) == k;
      assert r[i] in kids;
      var j :| 0 <= j < |kids| && kids[j] == r[i];
      assert KeyOf(Metas(fs, kids)[j]) == k;
      ListedIffListedKeys(list, k);
    }
    forall k | k in KeySet(Metas(fs, kids)) * ListedKeys(list) ensures k in KeySet(Metas(fs, r)) {
      var j :| 0 <= j < |kids| && KeyOf(Metas(fs, kids)[j]) == k;
      ListedIffListedKeys(list, k);
      assert kids[j] in r;
      var i :| 0 <= i < |r| && r[i] == kids[j];
      assert KeyOf(Metas(fs, r)[i]) == k;
    }
  }

  /**
   * Reconciliation converges on the listing: the children's keys after
   * retaining the matched children and inserting every entry are exactly
   * the keys of the listing's non-"." entries, whatever the children were.
   */
  lemma ReconcileConverges(fs: Fields, kids: seq<NodeId>, list: seq<FileMeta>)
    requires forall i :: 0 <= i < |kids| ==> kids[i] in fs
    ensures KeySet(InsertAll(Metas(fs, Retain(fs, kids, list)), list)) == ListedKeys(list)
  {
    RetainKeys(fs, kids, list);
    InsertAllShape(Metas(fs, Retain(fs, kids, list)), list);
  }

  /**
   * Reconciling a second time with the same listing retains every child and
   * adds none: children whose records are what the first reconciliation
   * produced stay exactly as they are.
   */
  lemma ReconcileTwiceChangesNothing(fs: Fields, kids: seq<NodeId>, list: seq<FileMeta>, ms: seq<FileMeta>)
    requires forall i :: 0 <= i < |kids| ==> kids[i] in fs
    requires UniqueKeys(ms) && KeySet(ms) <= ListedKeys(list)
    requires Metas(fs, kids) == InsertAll(ms, list)
    ensures Retain(fs, kids, list) == kids
    ensures InsertAll(Metas(fs, Retain(fs, kids, list)), list) == Metas(fs, kids)
  {
    InsertAllShape(ms, list);
    InsertAllIdempotent(ms, list);
    RetainAll(fs, kids, list);
  }

  lemma {:induction false} RetainAll(fs: Fields, kids: seq<NodeId>, list: seq<FileMeta>)
    requires forall i :: 0 <= i < |kids| ==> kids[i] in fs
    requires KeySet(Metas(fs, kids)) <= ListedKeys(list)
    ensures Retain(fs, kids, list) == kids
  {
    if kids != [] {
      ListedIffListedKeys(list, KeyOf(fs[kids[0]].meta));
      assert KeyOf(Metas(fs, kids)[0]) in KeySet(Metas(fs, kids));
      assert KeySet(Metas(fs, kids[1..])) <= KeySet(Metas(fs, kids)) by {
        forall k | k in KeySet(Metas(fs, kids[1..])) ensures k in KeySet(Metas(fs, kids)) {
          var i :| 0 <= i < |kids[1..]| && KeyOf(Metas(fs, kids[1..])[i]) == k;
          assert KeyOf(Metas(fs, kids)[i + 1]) == k;
        }
      }
      RetainAll(fs, kids[1..], list);
    }
  }
}
