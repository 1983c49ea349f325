/**
 * The composite operations of FileTreeNode on the node registry: clearing a
 * folder (clearAllChildren), dropping the children a listing no longer
 * names (purgeUnmatchedChildren), inserting listing entries (insertFile and
 * the node constructor it calls), and the whole listing update
 * (updateFileNodeData). Each is a function the methods of the FileTree
 * class are proved against; the lemmas show what each keeps and what it
 * does to the children.
 */
module Operations {
  import opened Wrappers
  import opened Metadata
  import opened NodeStates
  import opened Projection
  import opened Tree
  import opened Reconcile
  import opened Effects

  /** The registry with `n`'s list of children replaced by `kids`. */
  function WithChildren(reg: Registry, n: NodeId, kids: seq<NodeId>): (r: Registry)
    requires n in reg.fields
  {
    reg.(fields := reg.fields[n := reg.fields[n].(children := kids)])
  }

  /** Every listed child of `n` is a node that has `n` for its parent. */
  ghost predicate Owns(reg: Registry, n: NodeId)
    requires n in reg.fields
  {
    forall c :: c in reg.fields[n].children ==> Has(reg, c) && reg.fields[c].parent == Some(n)
  }

  // ---------------------------------------------------------------------
  // Replacing a list of children
  // ---------------------------------------------------------------------

  /** Replacing `n`'s children by children of `n` with unique keys keeps the tree shape. */
  lemma ReplacedKeepsShaped(fs: Fields, root: NodeId, n: NodeId, kids: seq<NodeId>)
    requires n in fs && Shaped(fs, root)
    requires forall i :: 0 <= i < |kids| ==> kids[i] in fs && fs[kids[i]].parent == Some(n)
    requires UniqueKeys(Metas(fs, kids))
    ensures Shaped(fs[n := fs[n].(children := kids)], root)
  {
    var f1 := fs[n := fs[n].(children := kids)];
    assert SameLinks(fs, f1);
    SameLinksRanked(fs, f1);
    ReplacedKeepsLinked(fs, n, kids);
    forall m | m in f1 ensures UniqueKeys(Metas(f1, f1[m].children)) {
      MetasFrame(fs, f1, f1[m].children);
    }
  }

  /** Replacing `n`'s children by children of `n` keeps every child linked to its parent. */
  lemma ReplacedKeepsLinked(fs: Fields, n: NodeId, kids: seq<NodeId>)
    requires n in fs && ChildrenLinked(fs)
    requires forall i :: 0 <= i < |kids| ==> kids[i] in fs && fs[kids[i]].parent == Some(n)
    ensures ChildrenLinked(fs[n := fs[n].(children := kids)])
  {
  }

  /** Replacing `n`'s children by live nodes keeps every listed child live. */
  lemma ReplacedKeepsLive(reg: Registry, n: NodeId, kids: seq<NodeId>)
    requires n in reg.fields && ChildrenLive(reg)
    requires forall i :: 0 <= i < |kids| ==> kids[i] in reg.state && reg.state[kids[i]] != Deleting
    ensures ChildrenLive(WithChildren(reg, n, kids))
  {
    var r := WithChildren(reg, n, kids);
    forall m, c | m in r.fields && c in r.fields[m].children && c in r.state ensures r.state[c] != Deleting {
      if m == n {
        var i :| 0 <= i < |kids| && kids[i] == c;
      }
    }
  }

  /**
   * Replacing `n`'s children by live children of `n` with unique keys keeps
   * the tree well formed.
   */
  lemma ReplacedKeepsWf(reg: Registry, root: NodeId, n: NodeId, kids: seq<NodeId>)
    requires n in reg.fields && Wf(reg, root)
    requires forall i :: 0 <= i < |kids| ==>
      kids[i] in reg.fields && reg.fields[kids[i]].parent == Some(n) && reg.state[kids[i]] != Deleting
    requires UniqueKeys(Metas(reg.fields, kids))
    ensures Wf(WithChildren(reg, n, kids), root)
  {
    ReplacedKeepsShaped(reg.fields, root, n, kids);
    ReplacedKeepsLive(reg, n, kids);
  }

  /**
   * Replacing `n`'s children keeps every live node listed by its parent once
   * the nodes dropped from the list are counted with those already taken off
   * (`out2` covers both, less any node put back).
   */
  lemma ReplacedKeepsAttached(reg: Registry, root: NodeId, n: NodeId, kids: seq<NodeId>,
                              out: set<NodeId>, out2: set<NodeId>)
    requires n in reg.fields && AttachedExcept(reg, root, out)
    requires forall i :: 0 <= i < |kids| ==> kids[i] in reg.fields && reg.fields[kids[i]].parent == Some(n)
    requires forall m :: m in reg.fields[n].children && m !in kids ==> m in out2
    requires forall m :: m in out ==> m in out2 || m in kids
    ensures AttachedExcept(WithChildren(reg, n, kids), root, out2)
  {
  }

  /** Both of the above, with rows, which a list of children does not affect. */
  lemma ReplacedKeepsShape(reg: Registry, root: NodeId, n: NodeId, kids: seq<NodeId>,
                           out: set<NodeId>, out2: set<NodeId>)
    requires n in reg.fields && Wf(reg, root) && AttachedExcept(reg, root, out) && RowsConsistent(reg)
    requires forall i :: 0 <= i < |kids| ==>
      kids[i] in reg.fields && reg.fields[kids[i]].parent == Some(n) && reg.state[kids[i]] != Deleting
    requires UniqueKeys(Metas(reg.fields, kids))
    requires forall m :: m in reg.fields[n].children && m !in kids ==> m in out2
    requires forall m :: m in out ==> m in out2 || m in kids
    ensures var r := WithChildren(reg, n, kids);
      Wf(r, root) && AttachedExcept(r, root, out2) && RowsConsistent(r)
  {
    ReplacedKeepsWf(reg, root, n, kids);
    ReplacedKeepsAttached(reg, root, n, kids, out, out2);
    RowsFrame(reg, WithChildren(reg, n, kids));
  }

  /** A node being deleted need not be listed by its parent. */
  lemma DeletedLeavesOut(reg: Registry, root: NodeId, out: set<NodeId>, c: NodeId)
    requires AttachedExcept(reg, root, out + {c})
    requires c in reg.state && reg.state[c] == Deleting
    ensures AttachedExcept(reg, root, out)
  {
  }

  // ---------------------------------------------------------------------
  // clearAllChildren
  // ---------------------------------------------------------------------

  /**
   * clearAllChildren: while `n` has children, its last child is taken off
   * the list and sent to Deleting.
   */
  ghost function Cleared(reg: Registry, n: NodeId): (r: Registry)
    requires n in reg.fields && Owns(reg, n)
    ensures SameLinks(reg.fields, r.fields) && r.state.Keys == reg.state.Keys && r.view.Keys == reg.view.Keys
    ensures r.fields[n].children == []
    decreases |reg.fields[n].children|
  {
    var kids := reg.fields[n].children;
    if kids == [] then reg
    else
      var r2 := TakenLast(reg, n);
      TakeLastStep(reg, n);
      SameLinksTrans(reg.fields, r2.fields, Cleared(r2, n).fields);
      Cleared(r2, n)
  }

  /** One round of clearAllChildren: the last child leaves `n`'s list and is sent to Deleting. */
  ghost function TakenLast(reg: Registry, n: NodeId): (r: Registry)
    requires n in reg.fields && Owns(reg, n) && reg.fields[n].children != []
  {
    var kids := reg.fields[n].children;
    StateChanged(WithChildren(reg, n, kids[..|kids| - 1]), kids[|kids| - 1], Deleting)
  }

  /**
   * Taking `n`'s last child off its list and sending that child to Deleting
   * moves no node, shortens the list and leaves its other nodes `n`'s children.
   */
  lemma TakeLastStep(reg: Registry, n: NodeId)
    requires n in reg.fields && Owns(reg, n) && reg.fields[n].children != []
    ensures var r2 := TakenLast(reg, n);
      && SameLinks(reg.fields, r2.fields) && r2.state.Keys == reg.state.Keys && r2.view.Keys == reg.view.Keys
      && n in r2.fields && Owns(r2, n) && |r2.fields[n].children| < |reg.fields[n].children|
  {
    var kids := reg.fields[n].children;
    var c := kids[|kids| - 1];
    var r1 := WithChildren(reg, n, kids[..|kids| - 1]);
    var r2 := TakenLast(reg, n);
    assert c in kids;
    assert SameLinks(reg.fields, r1.fields);
    assert SameLinks(r1.fields, r2.fields);
    SameLinksTrans(reg.fields, r1.fields, r2.fields);
    assert r2.fields[n].children == r1.fields[n].children || r2.fields[n].children == Remove(r1.fields[n].children, c);
    forall x | x in r2.fields[n].children ensures Has(r2, x) && r2.fields[x].parent == Some(n) {
      assert x in kids;
    }
  }

  /**
   * Taking the last child off `n`'s list keeps the tree invariants, the
   * child joining the nodes taken off their lists.
   */
  lemma TakeLastKeepsShape(reg: Registry, root: NodeId, n: NodeId, out: set<NodeId>)
    requires n in reg.fields && Wf(reg, root) && AttachedExcept(reg, root, out) && RowsConsistent(reg)
    requires reg.fields[n].children != []
    ensures var kids := reg.fields[n].children;
      var r1 := WithChildren(reg, n, kids[..|kids| - 1]);
      && Has(r1, kids[|kids| - 1])
      && Wf(r1, root) && AttachedExcept(r1, root, out + {kids[|kids| - 1]}) && RowsConsistent(r1)
  {
    var kids := reg.fields[n].children;
    var k := |kids| - 1;
    PrefixLive(reg, root, n);
    UniquePrefix(reg.fields, kids, k);
    ReplacedKeepsShape(reg, root, n, kids[..k], out, out + {kids[k]});
  }

  /** All but the last of `n`'s children are live children of `n`, and the last is the only one left out. */
  lemma PrefixLive(reg: Registry, root: NodeId, n: NodeId)
    requires n in reg.fields && Wf(reg, root) && reg.fields[n].children != []
    ensures var kids := reg.fields[n].children;
      var k := |kids| - 1;
      && Has(reg, kids[k])
      && (forall i :: 0 <= i < |kids[..k]| ==>
            kids[..k][i] in reg.fields && reg.fields[kids[..k][i]].parent == Some(n) && reg.state[kids[..k][i]] != Deleting)
      && (forall m :: m in kids && m !in kids[..k] ==> m == kids[k])
  {
    var kids := reg.fields[n].children;
    var k := |kids| - 1;
    LastSplit(kids);
    forall i | 0 <= i < |kids[..k]|
      ensures kids[..k][i] in reg.fields && reg.fields[kids[..k][i]].parent == Some(n) && reg.state[kids[..k][i]] != Deleting
    {
      assert kids[..k][i] == kids[i];
    }
  }

  /** One round of clearAllChildren keeps the tree invariants. */
  lemma ClearStepKeepsShape(reg: Registry, root: NodeId, n: NodeId, out: set<NodeId>)
    requires n in reg.fields && Wf(reg, root) && AttachedExcept(reg, root, out) && RowsConsistent(reg)
    requires reg.fields[n].children != []
    ensures Owns(reg, n)
    ensures var r2 := TakenLast(reg, n);
      Wf(r2, root) && AttachedExcept(r2, root, out) && RowsConsistent(r2)
  {
    WfOwns(reg, root, n);
    TakeLastKeepsShape(reg, root, n, out);
    var kids := reg.fields[n].children;
    var c := kids[|kids| - 1];
    var r1 := WithChildren(reg, n, kids[..|kids| - 1]);
    StateChangedKeepsShape(r1, root, c, Deleting, out + {c});
    DeletedLeavesOut(StateChanged(r1, c, Deleting), root, out, c);
  }

  /** clearAllChildren keeps the tree invariants. */
  lemma {:induction false} ClearedKeepsShape(reg: Registry, root: NodeId, n: NodeId, out: set<NodeId>)
    requires n in reg.fields && Wf(reg, root) && AttachedExcept(reg, root, out) && RowsConsistent(reg)
    ensures Owns(reg, n)
    ensures var r := Cleared(reg, n);
      Wf(r, root) && AttachedExcept(r, root, out) && RowsConsistent(r)
    decreases |reg.fields[n].children|
  {
    WfOwns(reg, root, n);
    if reg.fields[n].children != [] {
      ClearStepKeepsShape(reg, root, n, out);
      TakeLastStep(reg, n);
      ClearedKeepsShape(TakenLast(reg, n), root, n, out);
    }
  }

  /** clearAllChildren empties `n`'s list and changes no other field of any node. */
  lemma {:induction false} ClearedFields(reg: Registry, n: NodeId)
    requires n in reg.fields && Owns(reg, n)
    ensures Cleared(reg, n).fields == reg.fields[n := reg.fields[n].(children := [])]
    decreases |reg.fields[n].children|
  {
    if reg.fields[n].children != [] {
      TakeLastStep(reg, n);
      var r2 := TakenLast(reg, n);
      ClearedFields(r2, n);
      TakenLastFields(reg, n);
      ChildrenTwice(reg.fields, n, r2.fields[n].children, []);
    }
  }

  /** Setting a node's children twice is setting them to the second list. */
  lemma ChildrenTwice(fs: Fields, n: NodeId, a: seq<NodeId>, b: seq<NodeId>)
    requires n in fs
    ensures var f1 := fs[n := fs[n].(children := a)];
      f1[n := f1[n].(children := b)] == fs[n := fs[n].(children := b)]
  {
  }

  /** One round of clearAllChildren changes no field but `n`'s list of children. */
  lemma TakenLastFields(reg: Registry, n: NodeId)
    requires n in reg.fields && Owns(reg, n) && reg.fields[n].children != []
    ensures var r2 := TakenLast(reg, n);
      n in r2.fields && r2.fields == reg.fields[n := reg.fields[n].(children := r2.fields[n].children)]
  {
    var kids := reg.fields[n].children;
    var c := kids[|kids| - 1];
    var r1 := WithChildren(reg, n, kids[..|kids| - 1]);
    var r2 := TakenLast(reg, n);
    assert c in kids;
    assert r1.fields[c].parent == Some(n);
    assert r2.fields == r1.fields || r2.fields == Unlisted(r1.fields, c);
    assert Unlisted(r1.fields, c) == r1.fields || Unlisted(r1.fields, c) == r1.fields[n := r1.fields[n].(children := Remove(r1.fields[n].children, c))];
  }

  /** One round of clearAllChildren sends the last child to Deleting and no other node anywhere. */
  lemma TakenLastStates(reg: Registry, n: NodeId)
    requires n in reg.fields && Owns(reg, n) && reg.fields[n].children != []
    ensures var kids := reg.fields[n].children;
      TakenLast(reg, n).state == reg.state[kids[|kids| - 1] := Deleting]
  {
  }

  /** After one round of clearAllChildren, `n`'s list is the old one less its last node. */
  lemma TakenLastChildren(reg: Registry, n: NodeId)
    requires n in reg.fields && Owns(reg, n) && reg.fields[n].children != []
    ensures var kids := reg.fields[n].children;
      var r2 := TakenLast(reg, n);
      n in r2.fields && forall m :: m in kids <==> m in r2.fields[n].children || m == kids[|kids| - 1]
  {
    var kids := reg.fields[n].children;
    var c := kids[|kids| - 1];
    LastSplit(kids);
    var r1 := WithChildren(reg, n, kids[..|kids| - 1]);
    assert TakenLast(reg, n).fields[n].children == r1.fields[n].children
        || TakenLast(reg, n).fields[n].children == Remove(r1.fields[n].children, c);
  }

  /**
   * clearAllChildren sends every node that was on `n`'s list to Deleting and
   * changes no other node's state.
   */
  lemma {:induction false} ClearedStates(reg: Registry, n: NodeId)
    requires n in reg.fields && Owns(reg, n)
    ensures var r := Cleared(reg, n);
      forall m :: m in reg.state ==> r.state[m] == if m in reg.fields[n].children then Deleting else reg.state[m]
    decreases |reg.fields[n].children|
  {
    if reg.fields[n].children != [] {
      TakeLastStep(reg, n);
      var r2 := TakenLast(reg, n);
      ClearedStates(r2, n);
      TakenLastStates(reg, n);
      TakenLastChildren(reg, n);
    }
  }

  /** A node of a non-empty list is in its front part or is its last node. */
  lemma LastSplit(kids: seq<NodeId>)
    requires kids != []
    ensures forall m :: m in kids <==> m in kids[..|kids| - 1] || m == kids[|kids| - 1]
  {
    assert kids == kids[..|kids| - 1] + [kids[|kids| - 1]];
  }

  /** In a well-formed tree every node owns its listed children. */
  lemma WfOwns(reg: Registry, root: NodeId, n: NodeId)
    requires Wf(reg, root) && n in reg.fields
    ensures Owns(reg, n)
  {
    forall c | c in reg.fields[n].children ensures Has(reg, c) && reg.fields[c].parent == Some(n) {
      var i :| 0 <= i < |reg.fields[n].children| && reg.fields[n].children[i] == c;
    }
  }

  /** The keys of a prefix of a list with unique keys are unique. */
  lemma UniquePrefix(fs: Fields, kids: seq<NodeId>, k: nat)
    requires k <= |kids| && forall i :: 0 <= i < |kids| ==> kids[i] in fs
    requires UniqueKeys(Metas(fs, kids))
    ensures UniqueKeys(Metas(fs, kids[..k]))
  {
    assert forall i :: 0 <= i < k ==> Metas(fs, kids[..k])[i] == Metas(fs, kids)[i];
  }

  // ---------------------------------------------------------------------
  // purgeUnmatchedChildren
  // ---------------------------------------------------------------------

  /** No node appears twice in the list. */
  predicate Distinct(s: seq<NodeId>)
  {
    forall i, j :: 0 <= i < j < |s| ==> s[i] != s[j]
  }

  /** `s` back to front. */
  function Reversed(s: seq<NodeId>): (r: seq<NodeId>)
    ensures |r| == |s|
    ensures forall i :: 0 <= i < |s| ==> r[i] == s[|s| - 1 - i]
  {
    if s == [] then [] else [s[|s| - 1]] + Reversed(s[..|s| - 1])
  }

  /** Taking the last child off `n`'s list leaves `n` owning the rest. */
  lemma DropLastOwns(reg: Registry, n: NodeId)
    requires n in reg.fields && Owns(reg, n) && reg.fields[n].children != []
    ensures var kids := reg.fields[n].children;
      var r1 := WithChildren(reg, n, kids[..|kids| - 1]);
      n in r1.fields && Owns(r1, n) && r1.fields == reg.fields[n := reg.fields[n].(children := kids[..|kids| - 1])]
  {
    var kids := reg.fields[n].children;
    var r1 := WithChildren(reg, n, kids[..|kids| - 1]);
    LastSplit(kids);
    forall c | c in r1.fields[n].children ensures Has(r1, c) && r1.fields[c].parent == Some(n) {
      assert c in kids;
    }
  }

  /**
   * One round of the first loop of purgeUnmatchedChildren: `n`'s last child
   * is taken off its list; if a non-"." entry of `list` matches it on (full
   * path, kind) it joins `alt`, otherwise it is sent to Deleting.
   */
  ghost function SiftStep(reg: Registry, n: NodeId, list: seq<FileMeta>, alt: seq<NodeId>): (r: (Registry, seq<NodeId>))
    requires n in reg.fields && Owns(reg, n) && reg.fields[n].children != []
    ensures n in r.0.fields && Owns(r.0, n) && |r.0.fields[n].children| < |reg.fields[n].children|
    ensures SameLinks(reg.fields, r.0.fields) && r.0.state.Keys == reg.state.Keys && r.0.view.Keys == reg.view.Keys
    ensures r.0.fields == reg.fields[n := reg.fields[n].(children := r.0.fields[n].children)]
  {
    var kids := reg.fields[n].children;
    var c := kids[|kids| - 1];
    assert c in kids;
    DropLastOwns(reg, n);
    if Listed(list, KeyOf(reg.fields[c].meta)) then
      (WithChildren(reg, n, kids[..|kids| - 1]), alt + [c])
    else
      TakeLastStep(reg, n);
      TakenLastFields(reg, n);
      (TakenLast(reg, n), alt)
  }

  /** The first loop of purgeUnmatchedChildren: sift until `n` has no children. */
  ghost function Sifted(reg: Registry, n: NodeId, list: seq<FileMeta>, alt: seq<NodeId>): (r: (Registry, seq<NodeId>))
    requires n in reg.fields && Owns(reg, n)
    ensures SameLinks(reg.fields, r.0.fields) && r.0.state.Keys == reg.state.Keys && r.0.view.Keys == reg.view.Keys
    decreases |reg.fields[n].children|
  {
    if reg.fields[n].children == [] then (reg, alt)
    else
      var r1, alt1 := SiftStep(reg, n, list, alt).0, SiftStep(reg, n, list, alt).1;
      SameLinksTrans(reg.fields, r1.fields, Sifted(r1, n, list, alt1).0.fields);
      Sifted(r1, n, list, alt1)
  }

  /**
   * purgeUnmatchedChildren: nothing happens to a node without children;
   * otherwise the first loop sorts the children and the second appends the
   * matched ones back, last taken first.
   */
  ghost function Purged(reg: Registry, n: NodeId, list: seq<FileMeta>): (r: Registry)
    requires n in reg.fields && Owns(reg, n)
  {
    if reg.fields[n].children == [] then reg
    else
      var sifted := Sifted(reg, n, list, []);
      WithChildren(sifted.0, n, Reversed(sifted.1))
  }

  /** The sifting loop changes no field but `n`'s list, which it empties. */
  lemma {:induction false} SiftedFields(reg: Registry, n: NodeId, list: seq<FileMeta>, alt: seq<NodeId>)
    requires n in reg.fields && Owns(reg, n)
    ensures Sifted(reg, n, list, alt).0.fields == reg.fields[n := reg.fields[n].(children := [])]
    decreases |reg.fields[n].children|
  {
    if reg.fields[n].children != [] {
      var r1, alt1 := SiftStep(reg, n, list, alt).0, SiftStep(reg, n, list, alt).1;
      SiftedFields(r1, n, list, alt1);
      ChildrenTwice(reg.fields, n, r1.fields[n].children, []);
    }
  }

  /** The children a sifting round leaves `n`, the state it leaves and the matched children it collects. */
  lemma SiftStepEffect(reg: Registry, n: NodeId, list: seq<FileMeta>, alt: seq<NodeId>)
    requires n in reg.fields && Owns(reg, n) && reg.fields[n].children != []
    ensures var kids := reg.fields[n].children;
      var c := kids[|kids| - 1];
      var r := SiftStep(reg, n, list, alt);
      && c in reg.fields && c in reg.state
      && r.1 == (if Listed(list, KeyOf(reg.fields[c].meta)) then alt + [c] else alt)
      && r.0.state == (if Listed(list, KeyOf(reg.fields[c].meta)) then reg.state else reg.state[c := Deleting])
      && (forall m :: m in kids <==> m in r.0.fields[n].children || m == c)
  {
    var kids := reg.fields[n].children;
    var c := kids[|kids| - 1];
    assert c in kids;
    LastSplit(kids);
    if !Listed(list, KeyOf(reg.fields[c].meta)) {
      TakenLastStates(reg, n);
      TakenLastChildren(reg, n);
    }
  }

  /** On a list without repetitions a sifting round leaves `n` exactly the front part of its list. */
  lemma SiftStepDistinct(reg: Registry, n: NodeId, list: seq<FileMeta>, alt: seq<NodeId>)
    requires n in reg.fields && Owns(reg, n) && reg.fields[n].children != []
    requires Distinct(reg.fields[n].children)
    ensures var kids := reg.fields[n].children;
      var r := SiftStep(reg, n, list, alt);
      && r.0.fields[n].children == kids[..|kids| - 1]
      && Distinct(r.0.fields[n].children)
  {
    var kids := reg.fields[n].children;
    var c := kids[|kids| - 1];
    assert c in kids && c !in kids[..|kids| - 1];
    if !Listed(list, KeyOf(reg.fields[c].meta)) {
      var r1 := WithChildren(reg, n, kids[..|kids| - 1]);
      assert c in kids;
      assert TakenLast(reg, n).fields == r1.fields;
    }
  }

  /**
   * The state a node has once `kids` were sifted against `list`: Deleting
   * for a child no non-"." entry matches, the old state for any other node.
   */
  ghost predicate SiftedState(reg: Registry, kids: seq<NodeId>, list: seq<FileMeta>, r: Registry, m: NodeId)
    requires m in reg.state && m in reg.fields && m in r.state
  {
    r.state[m] == if m in kids && !Listed(list, KeyOf(reg.fields[m].meta)) then Deleting else reg.state[m]
  }

  /** A sifting round moves the children still to sift without changing what the loop ends with. */
  lemma SiftStepStates(reg: Registry, n: NodeId, list: seq<FileMeta>, alt: seq<NodeId>, r: Registry)
    requires n in reg.fields && Owns(reg, n) && reg.fields[n].children != [] && Aligned(reg)
    requires var r1 := SiftStep(reg, n, list, alt).0;
      r.state.Keys == reg.state.Keys &&
      forall m :: m in reg.state ==> SiftedState(r1, r1.fields[n].children, list, r, m)
    ensures forall m :: m in reg.state ==> SiftedState(reg, reg.fields[n].children, list, r, m)
  {
    SiftStepEffect(reg, n, list, alt);
  }

  /**
   * The sifting loop sends exactly the children no non-"." entry of `list`
   * matches to Deleting, and changes no other state.
   */
  lemma {:induction false} SiftedStates(reg: Registry, n: NodeId, list: seq<FileMeta>, alt: seq<NodeId>)
    requires n in reg.fields && Owns(reg, n) && Aligned(reg)
    ensures var r := Sifted(reg, n, list, alt).0;
      forall m :: m in reg.state ==> SiftedState(reg, reg.fields[n].children, list, r, m)
    decreases |reg.fields[n].children|
  {
    if reg.fields[n].children != [] {
      var r1, alt1 := SiftStep(reg, n, list, alt).0, SiftStep(reg, n, list, alt).1;
      SiftedStates(r1, n, list, alt1);
      SiftStepStates(reg, n, list, alt, Sifted(reg, n, list, alt).0);
    }
  }

  /** The children `n` lists are all in the registry. */
  lemma OwnedInFields(reg: Registry, n: NodeId)
    requires n in reg.fields && Owns(reg, n)
    ensures var kids := reg.fields[n].children;
      forall i :: 0 <= i < |kids| ==> kids[i] in reg.fields
  {
    var kids := reg.fields[n].children;
    assert forall i :: 0 <= i < |kids| ==> kids[i] in kids;
  }

  /** A sifting round moves one matched child from the list to the collected ones. */
  lemma SiftStepAlt(reg: Registry, n: NodeId, list: seq<FileMeta>, alt: seq<NodeId>)
    requires n in reg.fields && Owns(reg, n) && reg.fields[n].children != [] && Distinct(reg.fields[n].children)
    ensures var kids := reg.fields[n].children;
      var r1, alt1 := SiftStep(reg, n, list, alt).0, SiftStep(reg, n, list, alt).1;
      && (forall i :: 0 <= i < |kids| ==> kids[i] in reg.fields)
      && (forall i :: 0 <= i < |r1.fields[n].children| ==> r1.fields[n].children[i] in r1.fields)
      && alt1 + Reversed(Retain(r1.fields, r1.fields[n].children, list)) == alt + Reversed(Retain(reg.fields, kids, list))
  {
    var kids := reg.fields[n].children;
    var c := kids[|kids| - 1];
    var r1, alt1 := SiftStep(reg, n, list, alt).0, SiftStep(reg, n, list, alt).1;
    OwnedInFields(reg, n);
    OwnedInFields(r1, n);
    SiftStepCases(reg, n, list, alt);
    SiftStepDistinct(reg, n, list, alt);
    var pre := kids[..|kids| - 1];
    RetainFrame(r1.fields, reg.fields, pre, list);
    RetainSnoc(reg.fields, kids, list);
    var tail := if Listed(list, KeyOf(reg.fields[c].meta)) then [c] else [];
    assert alt1 == alt + tail;
    assert r1.fields[n].children == pre;
    ReversedSnocAfter(alt, tail, Retain(reg.fields, pre, list));
  }

  /** Collecting the tail of a list and then reversing the front gives the whole list reversed. */
  lemma ReversedSnocAfter(alt: seq<NodeId>, tail: seq<NodeId>, s: seq<NodeId>)
    requires |tail| <= 1
    ensures (alt + tail) + Reversed(s) == alt + Reversed(s + tail)
  {
    ReversedSnoc(s, tail);
    ConcatAssoc(alt, tail, Reversed(s));
  }


  /**
   * On a list without repetitions the sifting loop collects the matched
   * children last first: reversed, they are the children the listing retains.
   */
  lemma {:induction false} SiftedAlt(reg: Registry, n: NodeId, list: seq<FileMeta>, alt: seq<NodeId>)
    requires n in reg.fields && Owns(reg, n) && Distinct(reg.fields[n].children)
    ensures var kids := reg.fields[n].children;
      && (forall i :: 0 <= i < |kids| ==> kids[i] in reg.fields)
      && Sifted(reg, n, list, alt).1 == alt + Reversed(Retain(reg.fields, reg.fields[n].children, list))
    decreases |reg.fields[n].children|
  {
    OwnedInFields(reg, n);
    if reg.fields[n].children != [] {
      var r1, alt1 := SiftStep(reg, n, list, alt).0, SiftStep(reg, n, list, alt).1;
      SiftStepDistinct(reg, n, list, alt);
      SiftedAlt(r1, n, list, alt1);
      SiftStepAlt(reg, n, list, alt);
    }
  }

  /** Reversing a list with a short tail puts the tail in front. */
  lemma ReversedSnoc(s: seq<NodeId>, t: seq<NodeId>)
    requires |t| <= 1
    ensures Reversed(s + t) == t + Reversed(s)
  {
    if t != [] {
      assert (s + t)[..|s + t| - 1] == s;
    } else {
      assert s + t == s;
    }
  }

  /** Reversing keeps the nodes of the list. */
  lemma ReversedElems(s: seq<NodeId>)
    ensures forall m :: m in Reversed(s) <==> m in s
  {
    forall m | m in s ensures m in Reversed(s) {
      var i :| 0 <= i < |s| && s[i] == m;
      assert Reversed(s)[|s| - 1 - i] == m;
    }
  }

  /** Reversing twice gives the list back. */
  lemma {:induction false} ReversedTwice(s: seq<NodeId>)
    ensures Reversed(Reversed(s)) == s
  {
    var r := Reversed(Reversed(s));
    assert forall i :: 0 <= i < |s| ==> r[i] == s[i];
  }

  /** In a well-formed tree no node is listed twice by its parent. */
  lemma WfDistinct(reg: Registry, root: NodeId, n: NodeId)
    requires Wf(reg, root) && n in reg.fields
    ensures Distinct(reg.fields[n].children)
  {
    var kids := reg.fields[n].children;
    assert UniqueKeys(Metas(reg.fields, kids));
    forall i, j | 0 <= i < j < |kids| ensures kids[i] != kids[j] {
      assert KeyOf(Metas(reg.fields, kids)[i]) != KeyOf(Metas(reg.fields, kids)[j]);
    }
  }

  /** The nodes of a list, as a set. */
  ghost function Elems(s: seq<NodeId>): (r: set<NodeId>)
  {
    set x | x in s
  }

  lemma ElemsSnoc(out: set<NodeId>, s: seq<NodeId>, x: NodeId)
    ensures out + Elems(s + [x]) == out + Elems(s) + {x}
  {
  }

  /**
   * The matched children collected so far are live children of `n` that a
   * non-"." entry of `list` matches.
   */
  ghost predicate Collected(reg: Registry, n: NodeId, list: seq<FileMeta>, alt: seq<NodeId>)
  {
    forall x :: x in alt ==>
      Has(reg, x) && reg.fields[x].parent == Some(n) && reg.state[x] != Deleting
      && Listed(list, KeyOf(reg.fields[x].meta))
  }

  /** One sifting round keeps the tree invariants, counting the collected children as taken off. */
  lemma SiftStepKeepsShape(reg: Registry, root: NodeId, n: NodeId, list: seq<FileMeta>, alt: seq<NodeId>,
                           out: set<NodeId>)
    requires n in reg.fields && Wf(reg, root) && AttachedExcept(reg, root, out + Elems(alt)) && RowsConsistent(reg)
    requires reg.fields[n].children != []
    ensures Owns(reg, n)
    ensures var r1, alt1 := SiftStep(reg, n, list, alt).0, SiftStep(reg, n, list, alt).1;
      Wf(r1, root) && AttachedExcept(r1, root, out + Elems(alt1)) && RowsConsistent(r1)
  {
    WfOwns(reg, root, n);
    var kids := reg.fields[n].children;
    var c := kids[|kids| - 1];
    assert c in kids;
    var step := SiftStep(reg, n, list, alt);
    if Listed(list, KeyOf(reg.fields[c].meta)) {
      TakeLastKeepsShape(reg, root, n, out + Elems(alt));
      assert step.0 == WithChildren(reg, n, kids[..|kids| - 1]);
      ElemsSnoc(out, alt, c);
    } else {
      ClearStepKeepsShape(reg, root, n, out + Elems(alt));
      assert step.0 == TakenLast(reg, n) && step.1 == alt;
    }
  }

  /** One sifting round keeps the collected children live children of `n`. */
  lemma SiftStepKeepsCollected(reg: Registry, root: NodeId, n: NodeId, list: seq<FileMeta>, alt: seq<NodeId>)
    requires n in reg.fields && Wf(reg, root) && Collected(reg, n, list, alt)
    requires reg.fields[n].children != []
    ensures Owns(reg, n)
    ensures Collected(SiftStep(reg, n, list, alt).0, n, list, SiftStep(reg, n, list, alt).1)
  {
    WfOwns(reg, root, n);
    var kids := reg.fields[n].children;
    assert kids[|kids| - 1] in kids;
    OwnedStepCollected(reg, n, list, alt);
  }

  lemma OwnedStepCollected(reg: Registry, n: NodeId, list: seq<FileMeta>, alt: seq<NodeId>)
    requires n in reg.fields && Owns(reg, n) && Collected(reg, n, list, alt)
    requires reg.fields[n].children != []
    requires var kids := reg.fields[n].children;
      kids[|kids| - 1] in reg.state ==> reg.state[kids[|kids| - 1]] != Deleting
    ensures Collected(SiftStep(reg, n, list, alt).0, n, list, SiftStep(reg, n, list, alt).1)
  {
    var kids := reg.fields[n].children;
    var c := kids[|kids| - 1];
    SiftStepCases(reg, n, list, alt);
    if Listed(list, KeyOf(reg.fields[c].meta)) {
      CollectedSnoc(reg, n, list, alt, c);
      CollectedWithChildren(reg, n, list, alt + [c], kids[..|kids| - 1]);
    } else {
      TakeLastStep(reg, n);
      TakenLastFields(reg, n);
      TakenLastStates(reg, n);
      CollectedUnmatched(reg, TakenLast(reg, n), n, list, alt, c);
    }
  }

  /** A sifting round either collects the last child or sends it to Deleting. */
  lemma SiftStepCases(reg: Registry, n: NodeId, list: seq<FileMeta>, alt: seq<NodeId>)
    requires n in reg.fields && Owns(reg, n) && reg.fields[n].children != []
    ensures var kids := reg.fields[n].children;
      var c := kids[|kids| - 1];
      && c in kids && Has(reg, c) && reg.fields[c].parent == Some(n)
      && (Listed(list, KeyOf(reg.fields[c].meta)) ==>
            SiftStep(reg, n, list, alt).0 == WithChildren(reg, n, kids[..|kids| - 1])
            && SiftStep(reg, n, list, alt).1 == alt + [c])
      && (!Listed(list, KeyOf(reg.fields[c].meta)) ==>
            SiftStep(reg, n, list, alt).0 == TakenLast(reg, n) && SiftStep(reg, n, list, alt).1 == alt)
  {
    var kids := reg.fields[n].children;
    assert kids[|kids| - 1] in kids;
  }

  /** A live, matched child of `n` may join the collected ones. */
  lemma CollectedSnoc(reg: Registry, n: NodeId, list: seq<FileMeta>, alt: seq<NodeId>, c: NodeId)
    requires Collected(reg, n, list, alt)
    requires Has(reg, c) && reg.fields[c].parent == Some(n) && reg.state[c] != Deleting
    requires Listed(list, KeyOf(reg.fields[c].meta))
    ensures Collected(reg, n, list, alt + [c])
  {
    forall x | x in alt + [c]
      ensures Has(reg, x) && reg.fields[x].parent == Some(n) && reg.state[x] != Deleting
      ensures Listed(list, KeyOf(reg.fields[x].meta))
    {
      assert x in alt || x == c;
    }
  }

  /** Replacing `n`'s list of children keeps the collected ones collected. */
  lemma CollectedWithChildren(reg: Registry, n: NodeId, list: seq<FileMeta>, alt: seq<NodeId>, kids: seq<NodeId>)
    requires n in reg.fields && Collected(reg, n, list, alt)
    ensures Collected(WithChildren(reg, n, kids), n, list, alt)
  {
    var r := WithChildren(reg, n, kids);
    forall x | x in alt
      ensures Has(r, x) && r.fields[x].parent == Some(n) && r.state[x] != Deleting
      ensures Listed(list, KeyOf(r.fields[x].meta))
    {
      assert r.fields[x].parent == reg.fields[x].parent && r.fields[x].meta == reg.fields[x].meta;
    }
  }

  /** Sending an unmatched node to Deleting keeps the collected nodes collected. */
  lemma CollectedUnmatched(reg: Registry, r: Registry, n: NodeId, list: seq<FileMeta>, alt: seq<NodeId>,
                           c: NodeId)
    requires Collected(reg, n, list, alt) && c in reg.fields && !Listed(list, KeyOf(reg.fields[c].meta))
    requires n in reg.fields && n in r.fields && r.fields == reg.fields[n := reg.fields[n].(children := r.fields[n].children)]
    requires r.state == reg.state[c := Deleting] && r.view.Keys == reg.view.Keys
    ensures Collected(r, n, list, alt)
  {
    forall x | x in alt
      ensures Has(r, x) && r.fields[x].parent == Some(n) && r.state[x] != Deleting
      ensures Listed(list, KeyOf(r.fields[x].meta))
    {
      assert x != c;
      assert r.fields[x].parent == reg.fields[x].parent && r.fields[x].meta == reg.fields[x].meta;
    }
  }

  /** The sifting loop keeps the tree invariants, counting the collected children as taken off. */
  lemma {:induction false} SiftedKeepsShape(reg: Registry, root: NodeId, n: NodeId, list: seq<FileMeta>,
                                            alt: seq<NodeId>, out: set<NodeId>)
    requires n in reg.fields && Wf(reg, root) && AttachedExcept(reg, root, out + Elems(alt)) && RowsConsistent(reg)
    ensures Owns(reg, n)
    ensures var r, alt1 := Sifted(reg, n, list, alt).0, Sifted(reg, n, list, alt).1;
      Wf(r, root) && AttachedExcept(r, root, out + Elems(alt1)) && RowsConsistent(r)
    decreases |reg.fields[n].children|
  {
    WfOwns(reg, root, n);
    if reg.fields[n].children != [] {
      SiftStepKeepsShape(reg, root, n, list, alt, out);
      var r1, alt1 := SiftStep(reg, n, list, alt).0, SiftStep(reg, n, list, alt).1;
      SiftedKeepsShape(r1, root, n, list, alt1, out);
    }
  }

  /** The sifting loop collects only live children of `n` that the listing matches. */
  lemma {:induction false} SiftedKeepsCollected(reg: Registry, root: NodeId, n: NodeId, list: seq<FileMeta>,
                                                alt: seq<NodeId>, out: set<NodeId>)
    requires n in reg.fields && Wf(reg, root) && AttachedExcept(reg, root, out + Elems(alt)) && RowsConsistent(reg)
    requires Collected(reg, n, list, alt)
    ensures Owns(reg, n)
    ensures var r, alt1 := Sifted(reg, n, list, alt).0, Sifted(reg, n, list, alt).1;
      Collected(r, n, list, alt1)
    decreases |reg.fields[n].children|
  {
    WfOwns(reg, root, n);
    if reg.fields[n].children != [] {
      SiftStepKeepsShape(reg, root, n, list, alt, out);
      SiftStepKeepsCollected(reg, root, n, list, alt);
      var r1, alt1 := SiftStep(reg, n, list, alt).0, SiftStep(reg, n, list, alt).1;
      SiftedKeepsCollected(r1, root, n, list, alt1, out);
    }
  }

  /**
   * purgeUnmatchedChildren leaves `n` exactly the children a non-"." entry
   * of the listing matches, in their old order, and changes no other field.
   */
  lemma PurgedFields(reg: Registry, n: NodeId, list: seq<FileMeta>)
    requires n in reg.fields && Owns(reg, n) && Distinct(reg.fields[n].children)
    ensures var kids := reg.fields[n].children;
      && (forall i :: 0 <= i < |kids| ==> kids[i] in reg.fields)
      && Purged(reg, n, list).fields == reg.fields[n := reg.fields[n].(children := Retain(reg.fields, kids, list))]
  {
    var kids := reg.fields[n].children;
    OwnedInFields(reg, n);
    if kids != [] {
      var sifted := Sifted(reg, n, list, []);
      var kept := Retain(reg.fields, kids, list);
      SiftedFields(reg, n, list, []);
      SiftedAlt(reg, n, list, []);
      assert sifted.1 == Reversed(kept);
      ReversedTwice(kept);
      ChildrenTwice(reg.fields, n, [], kept);
    } else {
      assert reg.fields[n].(children := []) == reg.fields[n];
    }
  }

  /**
   * purgeUnmatchedChildren sends exactly the children no non-"." entry of
   * the listing matches to Deleting, and changes no other state.
   */
  lemma PurgedStates(reg: Registry, n: NodeId, list: seq<FileMeta>)
    requires n in reg.fields && Owns(reg, n) && Aligned(reg)
    ensures forall m :: m in reg.state ==> SiftedState(reg, reg.fields[n].children, list, Purged(reg, n, list), m)
  {
    if reg.fields[n].children != [] {
      SiftedStates(reg, n, list, []);
    }
  }

  /** The children purgeUnmatchedChildren keeps have unique keys. */
  lemma PurgedUnique(reg: Registry, root: NodeId, n: NodeId, list: seq<FileMeta>)
    requires n in reg.fields && Wf(reg, root) && reg.fields[n].children != []
    ensures Owns(reg, n)
    ensures var r1, alt := Sifted(reg, n, list, []).0, Sifted(reg, n, list, []).1;
      && (forall i :: 0 <= i < |alt| ==> Reversed(alt)[i] in r1.fields)
      && UniqueKeys(Metas(r1.fields, Reversed(alt)))
  {
    WfOwns(reg, root, n);
    WfDistinct(reg, root, n);
    var kids := reg.fields[n].children;
    OwnedInFields(reg, n);
    SiftedFields(reg, n, list, []);
    SiftedAlt(reg, n, list, []);
    var r1, alt := Sifted(reg, n, list, []).0, Sifted(reg, n, list, []).1;
    var kept := Retain(reg.fields, kids, list);
    ReversedTwice(kept);
    RetainUnique(reg.fields, kids, list);
    MetasFrame(reg.fields, r1.fields, kept);
  }

  /** The second loop of purgeUnmatchedChildren keeps the tree invariants. */
  lemma AppendBackKeepsShape(r1: Registry, root: NodeId, n: NodeId, list: seq<FileMeta>, alt: seq<NodeId>,
                             out: set<NodeId>)
    requires n in r1.fields && Wf(r1, root) && AttachedExcept(r1, root, out + Elems(alt)) && RowsConsistent(r1)
    requires Collected(r1, n, list, alt) && r1.fields[n].children == []
    requires forall i :: 0 <= i < |alt| ==> Reversed(alt)[i] in r1.fields
    requires UniqueKeys(Metas(r1.fields, Reversed(alt)))
    ensures var r := WithChildren(r1, n, Reversed(alt));
      Wf(r, root) && AttachedExcept(r, root, out) && RowsConsistent(r)
  {
    CollectedReversed(r1, n, list, alt);
    ReplacedKeepsShape(r1, root, n, Reversed(alt), out + Elems(alt), out);
  }

  /** The collected children, reversed, are live children of `n`, and every collected child is among them. */
  lemma CollectedReversed(r1: Registry, n: NodeId, list: seq<FileMeta>, alt: seq<NodeId>)
    requires Collected(r1, n, list, alt)
    ensures forall i :: 0 <= i < |Reversed(alt)| ==>
      Reversed(alt)[i] in r1.fields && r1.fields[Reversed(alt)[i]].parent == Some(n) && r1.state[Reversed(alt)[i]] != Deleting
    ensures forall m :: m in Elems(alt) ==> m in Reversed(alt)
  {
    ReversedElems(alt);
    forall i | 0 <= i < |Reversed(alt)|
      ensures Reversed(alt)[i] in r1.fields && r1.fields[Reversed(alt)[i]].parent == Some(n) && r1.state[Reversed(alt)[i]] != Deleting
    {
      assert Reversed(alt)[i] in alt;
    }
  }

  /** purgeUnmatchedChildren keeps the tree invariants. */
  lemma PurgedKeepsShape(reg: Registry, root: NodeId, n: NodeId, list: seq<FileMeta>, out: set<NodeId>)
    requires n in reg.fields && Wf(reg, root) && AttachedExcept(reg, root, out) && RowsConsistent(reg)
    ensures Owns(reg, n)
    ensures var r := Purged(reg, n, list);
      Wf(r, root) && AttachedExcept(r, root, out) && RowsConsistent(r)
  {
    WfOwns(reg, root, n);
    if reg.fields[n].children != [] {
      assert out + Elems([]) == out;
      SiftedKeepsShape(reg, root, n, list, [], out);
      SiftedKeepsCollected(reg, root, n, list, [], out);
      SiftedFields(reg, n, list, []);
      PurgedUnique(reg, root, n, list);
      var sifted := Sifted(reg, n, list, []);
      var r1, alt := sifted.0, sifted.1;
      AppendBackKeepsShape(r1, root, n, list, alt, out);
      assert Purged(reg, n, list) == WithChildren(r1, n, Reversed(alt));
    }
  }

  // ---------------------------------------------------------------------
  // insertFile and the child constructor
  // ---------------------------------------------------------------------

  /** Every identity at or above `next` is unused. */
  ghost predicate Fresh(reg: Registry, next: NodeId)
  {
    forall m :: (m in reg.fields || m in reg.state || m in reg.view) ==> m < next
  }

  /**
   * The fields of a node built from listing entry `e` under `n`: a copy of
   * the record, hidden, without children, buffer or tasks, contents unknown.
   */
  function ChildInfo(e: FileMeta, n: NodeId, depth: nat): (info: NodeInfo)
  {
    NodeInfo(e, Some(n), depth, [], false, false, None, None, None)
  }

  /** The child constructor before its state is computed: the new node in Init, appended to `n`'s list. */
  function Constructed(reg: Registry, n: NodeId, e: FileMeta, id: NodeId): (r: Registry)
    requires n in reg.fields
  {
    Registry(
      reg.fields[id := ChildInfo(e, n, reg.fields[n].depth + 1)][n := reg.fields[n].(children := reg.fields[n].children + [id])],
      reg.state[id := Init],
      reg.view[id := NoRows])
  }

  /**
   * The child constructor: node `id` is built from `e`, appended to `n`'s
   * list, and its state recomputed from its fields.
   */
  ghost function Adopted(reg: Registry, n: NodeId, e: FileMeta, id: NodeId): (r: Registry)
    requires n in reg.fields
  {
    var r0 := Constructed(reg, n, e, id);
    StateChanged(r0, id, StateOf(r0.fields[id]))
  }

  /** The registry with child `c`'s recorded size set to `size`. */
  function Resized(reg: Registry, c: NodeId, size: int): (r: Registry)
    requires c in reg.fields
  {
    reg.(fields := reg.fields[c := reg.fields[c].(meta := reg.fields[c].meta.(size := size))])
  }

  /**
   * insertFile(e) on `n`: a "." entry is skipped; if a child matches `e` on
   * (full path, kind), the first such child takes `e`'s size when it
   * differs; otherwise node `next` is built from `e` under `n`. The second
   * component is the next unused identity.
   */
  ghost function InsertedOne(reg: Registry, n: NodeId, e: FileMeta, next: NodeId): (r: (Registry, NodeId))
    requires n in reg.fields && Owns(reg, n)
  {
    var kids := reg.fields[n].children;
    OwnedInFields(reg, n);
    if IsSelfEntry(e) then (reg, next)
    else match FindKey(Metas(reg.fields, kids), KeyOf(e))
      case Some(i) =>
        var c := kids[i];
        if e.size != reg.fields[c].meta.size then (Resized(reg, c, e.size), next) else (reg, next)
      case None => (Adopted(reg, n, e, next), next + 1)
  }

  /** What insertFile does, case by case. */
  lemma InsertedOneCases(reg: Registry, n: NodeId, e: FileMeta, next: NodeId)
    requires n in reg.fields && Owns(reg, n)
    ensures var kids := reg.fields[n].children;
      && (forall i :: 0 <= i < |kids| ==> kids[i] in reg.fields)
      && (!IsSelfEntry(e) && FindKey(Metas(reg.fields, kids), KeyOf(e)).None? ==>
            InsertedOne(reg, n, e, next) == (Adopted(reg, n, e, next), next + 1))
      && (!IsSelfEntry(e) && FindKey(Metas(reg.fields, kids), KeyOf(e)).Some? ==>
            var c := kids[FindKey(Metas(reg.fields, kids), KeyOf(e)).value];
            InsertedOne(reg, n, e, next) == if e.size != reg.fields[c].meta.size then (Resized(reg, c, e.size), next) else (reg, next))
  {
    OwnedInFields(reg, n);
  }

  /** An insertion keeps `n` owning its children and `next` fresh. */
  lemma InsertedOneOwns(reg: Registry, n: NodeId, e: FileMeta, next: NodeId)
    requires n in reg.fields && Owns(reg, n) && Fresh(reg, next)
    ensures var r := InsertedOne(reg, n, e, next);
      n in r.0.fields && Owns(r.0, n) && Fresh(r.0, r.1) && next <= r.1
  {
    var kids := reg.fields[n].children;
    OwnedInFields(reg, n);
    if !IsSelfEntry(e) {
      match FindKey(Metas(reg.fields, kids), KeyOf(e))
      case Some(i) =>
        assert kids[i] in kids;
      case None =>
        AdoptedOwns(reg, n, e, next);
    }
  }

  /** An insertion changes nothing of `n`'s own fields but its list of children. */
  lemma InsertedOneKeepsOwner(reg: Registry, n: NodeId, e: FileMeta, next: NodeId)
    requires n in reg.fields && Owns(reg, n) && Ranked(reg.fields) && Fresh(reg, next)
    ensures var r := InsertedOne(reg, n, e, next).0;
      n in r.fields && r.fields[n] == reg.fields[n].(children := r.fields[n].children)
  {
    var kids := reg.fields[n].children;
    OwnedInFields(reg, n);
    if !IsSelfEntry(e) {
      match FindKey(Metas(reg.fields, kids), KeyOf(e))
      case Some(i) =>
        assert kids[i] in kids;
        assert reg.fields[kids[i]].depth == reg.fields[n].depth + 1;
      case None =>
        assert n < next;
    }
  }

  /** The child constructor appends the new node to `n`'s list, which `n` keeps owning. */
  lemma AdoptedOwns(reg: Registry, n: NodeId, e: FileMeta, id: NodeId)
    requires n in reg.fields && Owns(reg, n) && Fresh(reg, id)
    ensures var r := Adopted(reg, n, e, id);
      && n in r.fields && r.fields[n].children == reg.fields[n].children + [id]
      && Owns(r, n) && Fresh(r, id + 1)
  {
    var r0 := Constructed(reg, n, e, id);
    assert r0.fields[n].children == reg.fields[n].children + [id];
    assert Owns(r0, n);
  }

  /**
   * insertFile for each entry of `list` in order. The second component is
   * the next unused identity.
   */
  ghost function InsertedAll(reg: Registry, n: NodeId, list: seq<FileMeta>, next: NodeId): (r: (Registry, NodeId))
    requires n in reg.fields && Owns(reg, n) && Fresh(reg, next)
    ensures n in r.0.fields && Owns(r.0, n) && Fresh(r.0, r.1) && next <= r.1
    decreases |list|
  {
    if list == [] then (reg, next)
    else
      var p := InsertedAll(reg, n, list[..|list| - 1], next);
      InsertedOneOwns(p.0, n, list[|list| - 1], p.1);
      InsertedOne(p.0, n, list[|list| - 1], p.1)
  }

  /** Refreshing one listed child's size changes that child's record and no other. */
  lemma ResizedMetas(reg: Registry, n: NodeId, i: nat, size: int)
    requires n in reg.fields && Owns(reg, n) && Distinct(reg.fields[n].children)
    requires i < |reg.fields[n].children|
    ensures var kids := reg.fields[n].children;
      forall j :: 0 <= j < |kids| ==> kids[j] in reg.fields
    ensures var kids := reg.fields[n].children;
      var r := Resized(reg, kids[i], size);
      && n in r.fields && r.fields[n].children == kids
      && Metas(r.fields, kids) == Metas(reg.fields, kids)[i := Metas(reg.fields, kids)[i].(size := size)]
  {
    OwnedInFields(reg, n);
  }

  /** The child constructor appends the new node's record to the children's records. */
  lemma AdoptedMetas(reg: Registry, n: NodeId, e: FileMeta, id: NodeId)
    requires n in reg.fields && Owns(reg, n) && Fresh(reg, id) && Distinct(reg.fields[n].children)
    ensures var kids := reg.fields[n].children;
      var r := Adopted(reg, n, e, id);
      && (forall j :: 0 <= j < |kids| ==> kids[j] in reg.fields)
      && n in r.fields && r.fields[n].children == kids + [id] && Distinct(kids + [id])
      && (forall j :: 0 <= j < |kids| + 1 ==> (kids + [id])[j] in r.fields)
      && Metas(r.fields, kids + [id]) == Metas(reg.fields, kids) + [e]
  {
    var kids := reg.fields[n].children;
    OwnedInFields(reg, n);
    var r0 := Constructed(reg, n, e, id);
    assert r0.fields[n].children == kids + [id];
    assert Adopted(reg, n, e, id).fields == r0.fields;
    assert id !in kids;
  }

  /**
   * insertFile on the registry is insertFile on the children's records: the
   * records of `n`'s children afterwards are the old ones with `e` inserted.
   */
  lemma InsertedOneMetas(reg: Registry, n: NodeId, e: FileMeta, next: NodeId)
    requires n in reg.fields && Owns(reg, n) && Fresh(reg, next) && Distinct(reg.fields[n].children)
    ensures var kids := reg.fields[n].children;
      var r := InsertedOne(reg, n, e, next).0;
      && (forall j :: 0 <= j < |kids| ==> kids[j] in reg.fields)
      && n in r.fields && Distinct(r.fields[n].children)
      && (forall j :: 0 <= j < |r.fields[n].children| ==> r.fields[n].children[j] in r.fields)
      && Metas(r.fields, r.fields[n].children) == InsertOne(Metas(reg.fields, kids), e)
  {
    var kids := reg.fields[n].children;
    OwnedInFields(reg, n);
    if !IsSelfEntry(e) {
      match FindKey(Metas(reg.fields, kids), KeyOf(e))
      case Some(i) =>
        ResizedMetas(reg, n, i, e.size);
        if e.size == reg.fields[kids[i]].meta.size {
          assert Metas(reg.fields, kids)[i].(size := e.size) == Metas(reg.fields, kids)[i];
        }
      case None =>
        AdoptedMetas(reg, n, e, next);
    }
  }

  /**
   * insertFile for each entry of a listing is InsertAll on the children's
   * records.
   */
  lemma {:induction false} InsertedAllMetas(reg: Registry, n: NodeId, list: seq<FileMeta>, next: NodeId)
    requires n in reg.fields && Owns(reg, n) && Fresh(reg, next) && Distinct(reg.fields[n].children)
    ensures var kids := reg.fields[n].children;
      var r := InsertedAll(reg, n, list, next).0;
      && (forall j :: 0 <= j < |kids| ==> kids[j] in reg.fields)
      && Distinct(r.fields[n].children)
      && (forall j :: 0 <= j < |r.fields[n].children| ==> r.fields[n].children[j] in r.fields)
      && Metas(r.fields, r.fields[n].children) == InsertAll(Metas(reg.fields, kids), list)
    decreases |list|
  {
    OwnedInFields(reg, n);
    if list != [] {
      var p := InsertedAll(reg, n, list[..|list| - 1], next);
      InsertedAllMetas(reg, n, list[..|list| - 1], next);
      InsertedOneMetas(p.0, n, list[|list| - 1], p.1);
    }
  }

  /** insertFile either leaves `n`'s list of children alone or appends the node it created. */
  lemma InsertedOneChildren(reg: Registry, n: NodeId, e: FileMeta, next: NodeId)
    requires n in reg.fields && Owns(reg, n) && Fresh(reg, next)
    ensures var r := InsertedOne(reg, n, e, next);
      && n in r.0.fields
      && (r.1 == next ==> r.0.fields[n].children == reg.fields[n].children)
      && (r.1 != next ==> r.1 == next + 1 && r.0.fields[n].children == reg.fields[n].children + [next])
  {
    var kids := reg.fields[n].children;
    OwnedInFields(reg, n);
    if !IsSelfEntry(e) && FindKey(Metas(reg.fields, kids), KeyOf(e)).None? {
      AdoptedOwns(reg, n, e, next);
    }
  }

  /** Every node of `s` from position `k` on is numbered in [lo, hi). */
  predicate NumberedFrom(s: seq<NodeId>, k: nat, lo: NodeId, hi: NodeId)
  {
    forall j :: k <= j < |s| ==> lo <= s[j] < hi
  }

  /** Appending the next number keeps a prefix and a numbered tail, one number longer. */
  lemma AppendedNumbered(c: seq<NodeId>, kids: seq<NodeId>, lo: NodeId, x: NodeId)
    requires |kids| <= |c| && c[..|kids|] == kids && NumberedFrom(c, |kids|, lo, x) && lo <= x
    ensures |kids| <= |c + [x]| && (c + [x])[..|kids|] == kids && NumberedFrom(c + [x], |kids|, lo, x + 1)
  {
    assert (c + [x])[..|kids|] == c[..|kids|];
    forall j | |kids| <= j < |c| + 1
      ensures lo <= (c + [x])[j] < x + 1
    {
      if j < |c| {
        assert (c + [x])[j] == c[j];
      }
    }
  }

  /**
   * insertFile for each entry of `list` keeps `n`'s old children in front,
   * in their order, and appends only nodes it created, numbered from `next`
   * on.
   */
  lemma {:induction false} InsertedAllPrefix(reg: Registry, n: NodeId, list: seq<FileMeta>, next: NodeId)
    requires n in reg.fields && Owns(reg, n) && Fresh(reg, next)
    ensures var kids := reg.fields[n].children;
      var r := InsertedAll(reg, n, list, next);
      && |kids| <= |r.0.fields[n].children|
      && r.0.fields[n].children[..|kids|] == kids
      && NumberedFrom(r.0.fields[n].children, |kids|, next, r.1)
    decreases |list|
  {
    var kids := reg.fields[n].children;
    if list == [] {
      assert NumberedFrom(kids, |kids|, next, next);
    } else {
      var p := InsertedAll(reg, n, list[..|list| - 1], next);
      InsertedAllPrefix(reg, n, list[..|list| - 1], next);
      InsertedOneChildren(p.0, n, list[|list| - 1], p.1);
      var q := InsertedOne(p.0, n, list[|list| - 1], p.1);
      assert InsertedAll(reg, n, list, next) == q;
      if q.1 != p.1 {
        AppendedNumbered(p.0.fields[n].children, kids, next, p.1);
      }
    }
  }

  // ---------------------------------------------------------------------
  // Deleting is final
  // ---------------------------------------------------------------------

  /** Every node being deleted in `r0` is still being deleted in `r1`. */
  ghost predicate KeepsDeleting(r0: Registry, r1: Registry)
  {
    forall m :: m in r0.state && r0.state[m] == Deleting ==> m in r1.state && r1.state[m] == Deleting
  }

  lemma KeepsDeletingTrans(r0: Registry, r1: Registry, r2: Registry)
    requires KeepsDeleting(r0, r1) && KeepsDeleting(r1, r2)
    ensures KeepsDeleting(r0, r2)
  {
  }

  /** changeNodeState never takes a node out of Deleting. */
  lemma StateChangedKeepsDeleting(reg: Registry, id: NodeId, s: NodeState)
    requires Has(reg, id)
    ensures KeepsDeleting(reg, StateChanged(reg, id, s))
  {
  }

  /** Nor does setNodeVisible, which changes states only through changeNodeState. */
  lemma {:induction false} RevealedKeepsDeleting(reg: Registry, id: NodeId)
    requires Ranked(reg.fields) && Has(reg, id)
    ensures KeepsDeleting(reg, Revealed(reg, id))
    decreases reg.fields[id].depth
  {
    if !reg.fields[id].visible {
      var r1 := Shown(reg, id);
      SameLinksRanked(reg.fields, r1.fields);
      var r2 := match reg.fields[id].parent
        case None => r1
        case Some(p) => if Has(r1, p) then Revealed(r1, p) else r1;
      match reg.fields[id].parent {
        case None =>
        case Some(p) =>
          if Has(r1, p) {
            RevealedKeepsDeleting(r1, p);
          }
      }
      StateChangedKeepsDeleting(r2, id, StateOf(r2.fields[id]));
      KeepsDeletingTrans(reg, r2, Revealed(reg, id));
    }
  }

  /** No insertion takes a node out of Deleting. */
  lemma InsertedOneKeepsDeleting(reg: Registry, n: NodeId, e: FileMeta, next: NodeId)
    requires n in reg.fields && Owns(reg, n) && Fresh(reg, next)
    ensures KeepsDeleting(reg, InsertedOne(reg, n, e, next).0)
  {
    var kids := reg.fields[n].children;
    OwnedInFields(reg, n);
    if !IsSelfEntry(e) && FindKey(Metas(reg.fields, kids), KeyOf(e)).None? {
      var r0 := Constructed(reg, n, e, next);
      StateChangedKeepsDeleting(r0, next, StateOf(r0.fields[next]));
    }
  }

  lemma {:induction false} InsertedAllKeepsDeleting(reg: Registry, n: NodeId, list: seq<FileMeta>, next: NodeId)
    requires n in reg.fields && Owns(reg, n) && Fresh(reg, next)
    ensures KeepsDeleting(reg, InsertedAll(reg, n, list, next).0)
    decreases |list|
  {
    if list != [] {
      var p := InsertedAll(reg, n, list[..|list| - 1], next);
      InsertedAllKeepsDeleting(reg, n, list[..|list| - 1], next);
      InsertedOneKeepsDeleting(p.0, n, list[|list| - 1], p.1);
      KeepsDeletingTrans(reg, p.0, InsertedAll(reg, n, list, next).0);
    }
  }

  /** Refreshing a node's size keeps every tree invariant. */
  lemma ResizedKeepsShape(reg: Registry, root: NodeId, c: NodeId, size: int, out: set<NodeId>)
    requires c in reg.fields && Wf(reg, root) && AttachedExcept(reg, root, out) && RowsConsistent(reg)
    ensures var r := Resized(reg, c, size);
      Wf(r, root) && AttachedExcept(r, root, out) && RowsConsistent(r)
  {
    SameTreeAt(reg.fields, c, reg.fields[c].(meta := reg.fields[c].meta.(size := size)));
    SameTreeKeepsShape(reg, Resized(reg, c, size), root, out);
  }

  /** Refreshing a node's size changes no visibility flag and no parent. */
  lemma ResizedKeepsVisibility(reg: Registry, c: NodeId, size: int)
    requires c in reg.fields
    ensures VisibleClosed(Resized(reg, c, size).fields) <==> VisibleClosed(reg.fields)
  {
    VisibilityFrame(reg.fields, Resized(reg, c, size).fields, None);
  }

  /**
   * Building a node for an entry no child of `n` matches keeps the tree
   * shape: the new node hangs one level below `n`, last in its list.
   */
  lemma ConstructedShaped(reg: Registry, root: NodeId, n: NodeId, e: FileMeta, id: NodeId)
    requires n in reg.fields && Shaped(reg.fields, root) && Fresh(reg, id)
    requires forall i :: 0 <= i < |reg.fields[n].children| ==>
      KeyOf(reg.fields[reg.fields[n].children[i]].meta) != KeyOf(e)
    ensures Shaped(Constructed(reg, n, e, id).fields, root)
  {
    var f0, f1 := reg.fields, Constructed(reg, n, e, id).fields;
    var kids := f0[n].children;
    assert id !in f0;
    ConstructedRanked(reg, n, e, id);
    ConstructedLinked(reg, n, e, id);
    forall m | m in f1 ensures UniqueKeys(Metas(f1, f1[m].children)) {
      if m == n {
        ConstructedMetas(reg, n, e, id);
      } else if m != id {
        MetasFrame(f0, f1, f1[m].children);
      }
    }
  }

  /** The new node lies one level below `n`. */
  lemma ConstructedRanked(reg: Registry, n: NodeId, e: FileMeta, id: NodeId)
    requires n in reg.fields && Ranked(reg.fields) && Fresh(reg, id)
    ensures Ranked(Constructed(reg, n, e, id).fields)
  {
    assert id !in reg.fields;
  }

  /** The new node points back at `n`, which lists it. */
  lemma ConstructedLinked(reg: Registry, n: NodeId, e: FileMeta, id: NodeId)
    requires n in reg.fields && ChildrenLinked(reg.fields) && Fresh(reg, id)
    ensures ChildrenLinked(Constructed(reg, n, e, id).fields)
  {
    var f0, f1 := reg.fields, Constructed(reg, n, e, id).fields;
    var kids := f0[n].children;
    assert id !in f0;
    forall m, i | m in f1 && 0 <= i < |f1[m].children|
      ensures f1[m].children[i] in f1 && f1[f1[m].children[i]].parent == Some(m)
    {
      if m == n && i == |kids| {
      } else {
        assert f1[m].children[i] in f0 && f0[f1[m].children[i]].parent == Some(m);
      }
    }
  }

  /** The records of `n`'s children after the child constructor: the old ones, then `e`. */
  lemma ConstructedMetas(reg: Registry, n: NodeId, e: FileMeta, id: NodeId)
    requires n in reg.fields && ChildrenLinked(reg.fields) && Fresh(reg, id)
    requires forall i :: 0 <= i < |reg.fields[n].children| ==>
      KeyOf(reg.fields[reg.fields[n].children[i]].meta) != KeyOf(e)
    requires UniqueKeys(Metas(reg.fields, reg.fields[n].children))
    ensures var f1 := Constructed(reg, n, e, id).fields;
      UniqueKeys(Metas(f1, f1[n].children))
  {
    var f0, f1 := reg.fields, Constructed(reg, n, e, id).fields;
    var kids := f0[n].children;
    var ms := Metas(f1, kids + [id]);
    assert forall i :: 0 <= i < |kids| ==> ms[i] == Metas(f0, kids)[i];
    assert ms[|kids|] == e;
  }

  /** The child constructor keeps the tree invariants. */
  lemma ConstructedKeepsShape(reg: Registry, root: NodeId, n: NodeId, e: FileMeta, id: NodeId, out: set<NodeId>)
    requires n in reg.fields && Wf(reg, root) && AttachedExcept(reg, root, out) && RowsConsistent(reg)
    requires Fresh(reg, id)
    requires forall i :: 0 <= i < |reg.fields[n].children| ==>
      KeyOf(reg.fields[reg.fields[n].children[i]].meta) != KeyOf(e)
    ensures var r := Constructed(reg, n, e, id);
      Wf(r, root) && AttachedExcept(r, root, out) && RowsConsistent(r)
  {
    ConstructedShaped(reg, root, n, e, id);
    ConstructedKeepsLive(reg, n, e, id);
    ConstructedKeepsAttached(reg, root, n, e, id, out);
    ConstructedKeepsRows(reg, n, e, id);
  }

  /** The new node is in Init, so no listed child is being deleted. */
  lemma ConstructedKeepsLive(reg: Registry, n: NodeId, e: FileMeta, id: NodeId)
    requires n in reg.fields && ChildrenLive(reg) && Fresh(reg, id)
    ensures ChildrenLive(Constructed(reg, n, e, id))
  {
    var r := Constructed(reg, n, e, id);
    forall m, c | m in r.fields && c in r.fields[m].children && c in r.state ensures r.state[c] != Deleting {
      if c != id {
        assert m in reg.fields && c in reg.fields[m].children;
      }
    }
  }

  /** The new node is listed by its parent. */
  lemma ConstructedKeepsAttached(reg: Registry, root: NodeId, n: NodeId, e: FileMeta, id: NodeId, out: set<NodeId>)
    requires n in reg.fields && Ranked(reg.fields) && AttachedExcept(reg, root, out) && Fresh(reg, id)
    ensures AttachedExcept(Constructed(reg, n, e, id), root, out)
  {
    assert id !in reg.fields;
    assert id in reg.fields[n].children + [id];
  }

  /** The new node has no rows. */
  lemma ConstructedKeepsRows(reg: Registry, n: NodeId, e: FileMeta, id: NodeId)
    requires n in reg.fields && RowsConsistent(reg)
    ensures RowsConsistent(Constructed(reg, n, e, id))
  {
  }

  /** The new node is hidden, so visibility stays closed upwards. */
  lemma ConstructedKeepsVisibility(reg: Registry, n: NodeId, e: FileMeta, id: NodeId)
    requires n in reg.fields && Fresh(reg, id) && Ranked(reg.fields) && VisibleClosed(reg.fields)
    ensures VisibleClosed(Constructed(reg, n, e, id).fields)
  {
    assert id !in reg.fields;
  }

  /** The child constructor keeps the tree invariants and visibility closed upwards. */
  lemma AdoptedKeepsShape(reg: Registry, root: NodeId, n: NodeId, e: FileMeta, id: NodeId)
    requires n in reg.fields && Wf(reg, root) && AttachedExcept(reg, root, {}) && RowsConsistent(reg)
    requires VisibleClosed(reg.fields) && Fresh(reg, id)
    requires forall i :: 0 <= i < |reg.fields[n].children| ==>
      KeyOf(reg.fields[reg.fields[n].children[i]].meta) != KeyOf(e)
    ensures var r := Adopted(reg, n, e, id);
      Wf(r, root) && AttachedExcept(r, root, {}) && RowsConsistent(r) && VisibleClosed(r.fields)
  {
    var r0 := Constructed(reg, n, e, id);
    ConstructedKeepsShape(reg, root, n, e, id, {});
    ConstructedKeepsVisibility(reg, n, e, id);
    StateChangedKeepsShape(r0, root, id, StateOf(r0.fields[id]), {});
    StateChangedKeepsVisibility(r0, id, StateOf(r0.fields[id]), None);
  }

  /** insertFile keeps the tree invariants and visibility closed upwards. */
  lemma InsertedOneKeepsShape(reg: Registry, root: NodeId, n: NodeId, e: FileMeta, next: NodeId)
    requires n in reg.fields && Wf(reg, root) && AttachedExcept(reg, root, {}) && RowsConsistent(reg)
    requires VisibleClosed(reg.fields) && Fresh(reg, next)
    ensures Owns(reg, n)
    ensures var r := InsertedOne(reg, n, e, next).0;
      Wf(r, root) && AttachedExcept(r, root, {}) && RowsConsistent(r) && VisibleClosed(r.fields)
  {
    WfOwns(reg, root, n);
    var kids := reg.fields[n].children;
    OwnedInFields(reg, n);
    var r := InsertedOne(reg, n, e, next).0;
    InsertedOneCases(reg, n, e, next);
    if !IsSelfEntry(e) {
      match FindKey(Metas(reg.fields, kids), KeyOf(e))
      case Some(i) =>
        assert kids[i] in kids;
        ResizedKeepsShape(reg, root, kids[i], e.size, {});
        ResizedKeepsVisibility(reg, kids[i], e.size);
      case None =>
        assert forall i :: 0 <= i < |kids| ==> Metas(reg.fields, kids)[i] == reg.fields[kids[i]].meta;
        AdoptedKeepsShape(reg, root, n, e, next);
    }
  }

  /** insertFile for each entry of a listing keeps the tree invariants and visibility closed upwards. */
  lemma {:induction false} InsertedAllKeepsShape(reg: Registry, root: NodeId, n: NodeId, list: seq<FileMeta>, next: NodeId)
    requires n in reg.fields && Wf(reg, root) && AttachedExcept(reg, root, {}) && RowsConsistent(reg)
    requires VisibleClosed(reg.fields) && Fresh(reg, next)
    ensures Owns(reg, n)
    ensures var r := InsertedAll(reg, n, list, next).0;
      Wf(r, root) && AttachedExcept(r, root, {}) && RowsConsistent(r) && VisibleClosed(r.fields)
    decreases |list|
  {
    WfOwns(reg, root, n);
    if list != [] {
      InsertedAllKeepsShape(reg, root, n, list[..|list| - 1], next);
      var p := InsertedAll(reg, n, list[..|list| - 1], next);
      InsertedOneKeepsShape(p.0, root, n, list[|list| - 1], p.1);
    }
  }
}
