/**
 * updateFileNodeData, the replies of the listing and download tasks, the
 * task setters, setFileBuffer and deleteFolderContentsData, each as a
 * function from the registry before to the registry after, with what each
 * keeps and what each achieves.
 */
module Updates {
  import opened Wrappers
  import opened Metadata
  import opened NodeStates
  import opened Projection
  import opened Tree
  import opened Reconcile
  import opened Effects
  import opened Operations

  /**
   * The invariants every public operation of a node keeps: a well-formed
   * tree, every live node listed by its parent, rows consistent with
   * states, and visibility closed upwards.
   */
  ghost predicate Sound(reg: Registry, root: NodeId)
  {
    Wf(reg, root) && AttachedExcept(reg, root, {}) && RowsConsistent(reg) && VisibleClosed(reg.fields)
  }

  // ---------------------------------------------------------------------
  // Field setters and recomputeNodeState
  // ---------------------------------------------------------------------

  /** The registry with `n`'s fields replaced by `info`. */
  function WithInfo(reg: Registry, n: NodeId, info: NodeInfo): (r: Registry)
    requires n in reg.fields
  {
    reg.(fields := reg.fields[n := info])
  }

  /**
   * Replacing a node's fields by fields with the same key, links, children
   * and visibility keeps the invariants and the unused identities.
   */
  lemma WithInfoKeepsSound(reg: Registry, root: NodeId, n: NodeId, info: NodeInfo, next: NodeId)
    requires n in reg.fields && Sound(reg, root) && Fresh(reg, next)
    requires KeyOf(info.meta) == KeyOf(reg.fields[n].meta) && info.parent == reg.fields[n].parent
    requires info.depth == reg.fields[n].depth && info.children == reg.fields[n].children
    requires info.visible == reg.fields[n].visible
    ensures Sound(WithInfo(reg, n, info), root) && Fresh(WithInfo(reg, n, info), next)
  {
    var r := WithInfo(reg, n, info);
    SameTreeAt(reg.fields, n, info);
    SameTreeKeepsShape(reg, r, root, {});
    InfoVisibility(reg.fields, n, info);
  }

  /** Replacing a node's fields by fields with the same parent and visibility leaves visibility closed upwards. */
  lemma InfoVisibility(fs: Fields, n: NodeId, info: NodeInfo)
    requires n in fs && VisibleClosed(fs) && info.visible == fs[n].visible && info.parent == fs[n].parent
    ensures VisibleClosed(fs[n := info])
  {
    VisibilityFrame(fs, fs[n := info], None);
  }

  /** Replacing a node's fields by fields with the same record changes no record. */
  lemma InfoMetas(fs: Fields, n: NodeId, info: NodeInfo, ids: seq<NodeId>)
    requires n in fs && info.meta == fs[n].meta && forall i :: 0 <= i < |ids| ==> ids[i] in fs
    ensures Metas(fs[n := info], ids) == Metas(fs, ids)
  {
    MetasFrame(fs, fs[n := info], ids);
  }

  /** The children of `n` a listing matches, and their records, do not depend on `n`'s other fields. */
  lemma RetainedAfterInfo(fs: Fields, n: NodeId, info: NodeInfo, list: seq<FileMeta>)
    requires n in fs && info.meta == fs[n].meta && info.children == fs[n].children
    requires forall i :: 0 <= i < |fs[n].children| ==> fs[n].children[i] in fs
    ensures Retain(fs[n := info], info.children, list) == Retain(fs, fs[n].children, list)
    ensures Metas(fs[n := info], Retain(fs, fs[n].children, list)) == Metas(fs, Retain(fs, fs[n].children, list))
  {
    RetainFrame(fs, fs[n := info], fs[n].children, list);
    InfoMetas(fs, n, info, Retain(fs, fs[n].children, list));
  }

  /** Writing a node's fields twice is writing the second. */
  lemma Overwritten(fs: Fields, n: NodeId, a: NodeInfo, b: NodeInfo)
    ensures fs[n := a][n := b] == fs[n := b]
  {
  }

  /** Which identities are unused depends only on which nodes there are. */
  lemma FreshKept(r0: Registry, r1: Registry, next: NodeId)
    requires Fresh(r0, next)
    requires r1.fields.Keys == r0.fields.Keys && r1.state.Keys == r0.state.Keys && r1.view.Keys == r0.view.Keys
    ensures Fresh(r1, next)
  {
  }

  /**
   * recomputeNodeState on `id`: a node being deleted stays so, any other
   * node enters the state its fields select; no field changes.
   */
  ghost function Recomputed(reg: Registry, id: NodeId): (r: Registry)
    requires Has(reg, id)
    ensures r.fields == reg.fields
    ensures r.state == reg.state[id := if reg.state[id] == Deleting then Deleting else StateOf(reg.fields[id])]
  {
    StateChanged(reg, id, StateOf(reg.fields[id]))
  }

  /** recomputeNodeState keeps the invariants and the unused identities. */
  lemma RecomputedKeepsSound(reg: Registry, root: NodeId, id: NodeId, next: NodeId)
    requires id in reg.fields && Sound(reg, root) && Fresh(reg, next)
    ensures Sound(Recomputed(reg, id), root) && Fresh(Recomputed(reg, id), next)
  {
    StateChangedKeepsShape(reg, root, id, StateOf(reg.fields[id]), {});
  }

  /** changeNodeState keeps the invariants and the unused identities. */
  lemma StateChangedKeepsSound(reg: Registry, root: NodeId, id: NodeId, s: NodeState, next: NodeId)
    requires id in reg.fields && Sound(reg, root) && Fresh(reg, next)
    ensures Sound(StateChanged(reg, id, s), root) && Fresh(StateChanged(reg, id, s), next)
  {
    StateChangedKeepsShape(reg, root, id, s, {});
    StateChangedKeepsVisibility(reg, id, s, None);
  }

  // ---------------------------------------------------------------------
  // setNodeVisible on every child
  // ---------------------------------------------------------------------

  /** setNodeVisible on each node of `kids`, first to last. */
  ghost function RevealedAll(reg: Registry, kids: seq<NodeId>): (r: Registry)
    requires Ranked(reg.fields) && forall i :: 0 <= i < |kids| ==> Has(reg, kids[i])
    ensures SameLinks(reg.fields, r.fields) && r.state.Keys == reg.state.Keys && r.view.Keys == reg.view.Keys
    decreases |kids|
  {
    if kids == [] then reg
    else
      var r1 := Revealed(reg, kids[0]);
      SameLinksRanked(reg.fields, r1.fields);
      HasRest(reg, r1, kids);
      SameLinksTrans(reg.fields, r1.fields, RevealedAll(r1, kids[1..]).fields);
      RevealedAll(r1, kids[1..])
  }

  /**
   * Making each node of `kids` visible turns visibility flags on and changes
   * no other field; afterwards every node of `kids` is visible.
   */
  lemma {:induction false} RevealedAllShows(reg: Registry, kids: seq<NodeId>)
    requires Ranked(reg.fields) && forall i :: 0 <= i < |kids| ==> Has(reg, kids[i])
    ensures ShowsMore(reg.fields, RevealedAll(reg, kids).fields)
    ensures forall i :: 0 <= i < |kids| ==> RevealedAll(reg, kids).fields[kids[i]].visible
    decreases |kids|
  {
    if kids == [] {
      assert forall m :: m in reg.fields ==> reg.fields[m] == reg.fields[m].(visible := reg.fields[m].visible);
    } else {
      var r1 := Revealed(reg, kids[0]);
      RevealedShows(reg, kids[0]);
      SameLinksRanked(reg.fields, r1.fields);
      RevealedAllShows(r1, kids[1..]);
      ShowsMoreTrans(reg.fields, r1.fields, RevealedAll(r1, kids[1..]).fields);
      assert forall i :: 1 <= i < |kids| ==> kids[i] == kids[1..][i - 1];
    }
  }

  /** Making each node of `kids` visible keeps the invariants. */
  lemma {:induction false} RevealedAllKeepsSound(reg: Registry, root: NodeId, kids: seq<NodeId>)
    requires Sound(reg, root) && forall i :: 0 <= i < |kids| ==> kids[i] in reg.fields
    ensures forall i :: 0 <= i < |kids| ==> Has(reg, kids[i])
    ensures Sound(RevealedAll(reg, kids), root)
    decreases |kids|
  {
    if kids != [] {
      ClosedExcept(reg.fields, kids[0]);
      RevealedKeepsShape(reg, root, kids[0]);
      var r1 := Revealed(reg, kids[0]);
      TailIn(reg.fields, r1.fields, kids);
      RevealedAllKeepsSound(r1, root, kids[1..]);
    }
  }

  /** Making each node of `kids` visible takes no node out of Deleting. */
  lemma {:induction false} RevealedAllKeepsDeleting(reg: Registry, kids: seq<NodeId>)
    requires Ranked(reg.fields) && forall i :: 0 <= i < |kids| ==> Has(reg, kids[i])
    ensures KeepsDeleting(reg, RevealedAll(reg, kids))
    decreases |kids|
  {
    if kids != [] {
      var r1 := Revealed(reg, kids[0]);
      RevealedKeepsDeleting(reg, kids[0]);
      SameLinksRanked(reg.fields, r1.fields);
      HasRest(reg, r1, kids);
      RevealedAllKeepsDeleting(r1, kids[1..]);
      KeepsDeletingTrans(reg, r1, RevealedAll(r1, kids[1..]));
    }
  }

  /** The nodes after the first of `kids` are still there in a registry with the same nodes. */
  lemma HasRest(reg: Registry, r1: Registry, kids: seq<NodeId>)
    requires kids != [] && forall i :: 0 <= i < |kids| ==> Has(reg, kids[i])
    requires r1.fields.Keys == reg.fields.Keys && r1.state.Keys == reg.state.Keys && r1.view.Keys == reg.view.Keys
    ensures forall i :: 0 <= i < |kids[1..]| ==> Has(r1, kids[1..][i])
  {
    forall i | 0 <= i < |kids[1..]| ensures Has(r1, kids[1..][i]) {
      assert kids[1..][i] == kids[i + 1];
      assert Has(reg, kids[i + 1]);
    }
  }

  /** The nodes after the first of `kids` are in a map of fields with the same nodes. */
  lemma TailIn(f0: Fields, f1: Fields, kids: seq<NodeId>)
    requires kids != [] && f1.Keys == f0.Keys && forall i :: 0 <= i < |kids| ==> kids[i] in f0
    ensures forall i :: 0 <= i < |kids[1..]| ==> kids[1..][i] in f1
  {
    forall i | 0 <= i < |kids[1..]| ensures kids[1..][i] in f1 {
      assert kids[1..][i] == kids[i + 1];
    }
  }

  lemma ClosedExcept(fs: Fields, x: NodeId)
    requires VisibleClosed(fs)
    ensures VisibleClosedExcept(fs, Some(x))
  {
  }

  // ---------------------------------------------------------------------
  // updateFileNodeData
  // ---------------------------------------------------------------------

  /** clearAllChildren keeps the invariants and the unused identities. */
  lemma ClearedKeepsSound(reg: Registry, root: NodeId, n: NodeId, next: NodeId)
    requires n in reg.fields && Sound(reg, root) && Fresh(reg, next)
    ensures Owns(reg, n)
    ensures Sound(Cleared(reg, n), root) && Fresh(Cleared(reg, n), next)
  {
    WfOwns(reg, root, n);
    ClearedKeepsShape(reg, root, n, {});
    ClearedFields(reg, n);
    InfoVisibility(reg.fields, n, reg.fields[n].(children := []));
  }

  /** purgeUnmatchedChildren keeps the invariants and the unused identities. */
  lemma PurgedKeepsSound(reg: Registry, root: NodeId, n: NodeId, list: seq<FileMeta>, next: NodeId)
    requires n in reg.fields && Sound(reg, root) && Fresh(reg, next)
    ensures Owns(reg, n)
    ensures Sound(Purged(reg, n, list), root) && Fresh(Purged(reg, n, list), next)
  {
    PurgedKeepsShape(reg, root, n, list, {});
    WfDistinct(reg, root, n);
    PurgedFields(reg, n, list);
    InfoVisibility(reg.fields, n, reg.fields[n].(children := Retain(reg.fields, reg.fields[n].children, list)));
  }

  /**
   * updateFileNodeData on `n` with `list`: the folder's contents become
   * known; a listing of at most one entry clears the children; otherwise
   * unmatched children are purged, every entry is inserted, every child is
   * made visible; finally the folder's state is recomputed. The second
   * component is the next unused identity. The invariants are kept.
   */
  ghost function Updated(reg: Registry, root: NodeId, n: NodeId, list: seq<FileMeta>, next: NodeId): (r: (Registry, NodeId))
    requires n in reg.fields && Sound(reg, root) && Fresh(reg, next)
    ensures Sound(r.0, root) && Fresh(r.0, r.1) && next <= r.1
  {
    var r0 := WithInfo(reg, n, reg.fields[n].(contentsKnown := true));
    WithInfoKeepsSound(reg, root, n, reg.fields[n].(contentsKnown := true), next);
    WfOwns(r0, root, n);
    if |list| <= 1 then
      ClearedKeepsSound(r0, root, n, next);
      RecomputedKeepsSound(Cleared(r0, n), root, n, next);
      (Recomputed(Cleared(r0, n), n), next)
    else
      var p := Reconciled(r0, root, n, list, next);
      RecomputedKeepsSound(p.0, root, n, p.1);
      (Recomputed(p.0, n), p.1)
  }

  /**
   * The middle of updateFileNodeData for a listing of more than one entry:
   * unmatched children are purged, every entry is inserted, and every child
   * is made visible. The invariants are kept.
   */
  ghost function Reconciled(reg: Registry, root: NodeId, n: NodeId, list: seq<FileMeta>, next: NodeId): (r: (Registry, NodeId))
    requires n in reg.fields && Sound(reg, root) && Fresh(reg, next)
    ensures n in r.0.fields && Sound(r.0, root) && Fresh(r.0, r.1) && next <= r.1
  {
    var r1 := Purged(reg, n, list);
    PurgedKeepsSound(reg, root, n, list, next);
    InsertedAllKeepsShape(r1, root, n, list, next);
    var p := InsertedAll(r1, n, list, next);
    var r2 := p.0;
    OwnedInFields(r2, n);
    RevealedAllKeepsSound(r2, root, r2.fields[n].children);
    var r3 := RevealedAll(r2, r2.fields[n].children);
    FreshKept(r2, r3, p.1);
    (r3, p.1)
  }

  /** insertFile for each entry changes nothing of `n`'s own fields but its list of children. */
  lemma {:induction false} InsertedAllKeepsOwner(reg: Registry, root: NodeId, n: NodeId, list: seq<FileMeta>, next: NodeId)
    requires n in reg.fields && Sound(reg, root) && Fresh(reg, next)
    ensures Owns(reg, n)
    ensures var r := InsertedAll(reg, n, list, next).0;
      r.fields[n] == reg.fields[n].(children := r.fields[n].children)
    decreases |list|
  {
    WfOwns(reg, root, n);
    if list != [] {
      InsertedAllKeepsOwner(reg, root, n, list[..|list| - 1], next);
      InsertedAllKeepsShape(reg, root, n, list[..|list| - 1], next);
      var p := InsertedAll(reg, n, list[..|list| - 1], next);
      InsertedOneKeepsOwner(p.0, n, list[|list| - 1], p.1);
    }
  }

  /**
   * After the middle of updateFileNodeData the records of `n`'s children
   * are InsertAll of the listing over the records of the children the
   * listing matched.
   */
  lemma ReconciledMetas(reg: Registry, root: NodeId, n: NodeId, list: seq<FileMeta>, next: NodeId)
    requires n in reg.fields && Sound(reg, root) && Fresh(reg, next)
    ensures var kids := reg.fields[n].children;
      var r := Reconciled(reg, root, n, list, next).0;
      && (forall i :: 0 <= i < |kids| ==> kids[i] in reg.fields)
      && (forall j :: 0 <= j < |r.fields[n].children| ==> r.fields[n].children[j] in r.fields)
      && Metas(r.fields, r.fields[n].children) == InsertAll(Metas(reg.fields, Retain(reg.fields, kids, list)), list)
  {
    var kids := reg.fields[n].children;
    WfOwns(reg, root, n);
    WfDistinct(reg, root, n);
    PurgedFields(reg, n, list);
    PurgedKeepsSound(reg, root, n, list, next);
    var r1 := Purged(reg, n, list);
    var kept := Retain(reg.fields, kids, list);
    InfoMetas(reg.fields, n, reg.fields[n].(children := kept), kept);
    WfOwns(r1, root, n);
    WfDistinct(r1, root, n);
    InsertedAllMetas(r1, n, list, next);
    InsertedAllKeepsShape(r1, root, n, list, next);
    var r2 := InsertedAll(r1, n, list, next).0;
    OwnedInFields(r2, n);
    RevealedAllKeepsSound(r2, root, r2.fields[n].children);
    RevealedAllShows(r2, r2.fields[n].children);
    var r3 := RevealedAll(r2, r2.fields[n].children);
    MetasFrame(r2.fields, r3.fields, r2.fields[n].children);
  }

  /**
   * The middle of updateFileNodeData leaves every child of `n` visible and
   * changes nothing of `n`'s own fields but its list of children and its
   * visibility, which it may only turn on.
   */
  lemma ReconciledShows(reg: Registry, root: NodeId, n: NodeId, list: seq<FileMeta>, next: NodeId)
    requires n in reg.fields && Sound(reg, root) && Fresh(reg, next)
    ensures var r := Reconciled(reg, root, n, list, next).0;
      && (forall c :: c in r.fields[n].children ==> c in r.fields && r.fields[c].visible)
      && r.fields[n] == reg.fields[n].(children := r.fields[n].children, visible := r.fields[n].visible)
      && (reg.fields[n].visible ==> r.fields[n].visible)
  {
    WfOwns(reg, root, n);
    WfDistinct(reg, root, n);
    PurgedFields(reg, n, list);
    PurgedKeepsSound(reg, root, n, list, next);
    var r1 := Purged(reg, n, list);
    InsertedAllKeepsOwner(r1, root, n, list, next);
    InsertedAllKeepsShape(r1, root, n, list, next);
    var r2 := InsertedAll(r1, n, list, next).0;
    var kids2 := r2.fields[n].children;
    OwnedInFields(r2, n);
    RevealedAllKeepsSound(r2, root, kids2);
    RevealedAllShows(r2, kids2);
    var r3 := RevealedAll(r2, kids2);
    forall c | c in r3.fields[n].children ensures c in r3.fields && r3.fields[c].visible {
      var i :| 0 <= i < |kids2| && kids2[i] == c;
    }
  }

  /**
   * After the middle of updateFileNodeData `n`'s children are the children
   * the listing matched, in their old order, followed by the nodes created
   * for the new entries, numbered from `next` on.
   */
  lemma ReconciledOrder(reg: Registry, root: NodeId, n: NodeId, list: seq<FileMeta>, next: NodeId)
    requires n in reg.fields && Sound(reg, root) && Fresh(reg, next)
    ensures var kept := Retain(reg.fields, reg.fields[n].children, list);
      var p := Reconciled(reg, root, n, list, next);
      var now := p.0.fields[n].children;
      && |kept| <= |now| && now[..|kept|] == kept
      && NumberedFrom(now, |kept|, next, p.1)
  {
    WfOwns(reg, root, n);
    WfDistinct(reg, root, n);
    PurgedFields(reg, n, list);
    PurgedKeepsSound(reg, root, n, list, next);
    var r1 := Purged(reg, n, list);
    WfOwns(r1, root, n);
    InsertedAllPrefix(r1, n, list, next);
    InsertedAllKeepsShape(r1, root, n, list, next);
    var r2 := InsertedAll(r1, n, list, next).0;
    OwnedInFields(r2, n);
    RevealedAllKeepsSound(r2, root, r2.fields[n].children);
    RevealedAllShows(r2, r2.fields[n].children);
  }

  /**
   * Every child of `n` that no non-"." entry of the listing matches is
   * being deleted after the middle of updateFileNodeData.
   */
  lemma ReconciledDeletes(reg: Registry, root: NodeId, n: NodeId, list: seq<FileMeta>, next: NodeId)
    requires n in reg.fields && Sound(reg, root) && Fresh(reg, next)
    ensures var r := Reconciled(reg, root, n, list, next).0;
      forall c :: c in reg.fields[n].children && c in reg.fields && !Listed(list, KeyOf(reg.fields[c].meta)) ==>
        c in r.state && r.state[c] == Deleting
  {
    var kids := reg.fields[n].children;
    WfOwns(reg, root, n);
    PurgedStates(reg, n, list);
    PurgedKeepsSound(reg, root, n, list, next);
    var r1 := Purged(reg, n, list);
    WfOwns(r1, root, n);
    InsertedAllKeepsDeleting(r1, n, list, next);
    InsertedAllKeepsShape(r1, root, n, list, next);
    var r2 := InsertedAll(r1, n, list, next).0;
    OwnedInFields(r2, n);
    RevealedAllKeepsSound(r2, root, r2.fields[n].children);
    RevealedAllKeepsDeleting(r2, r2.fields[n].children);
    forall c | c in kids && c in reg.fields && !Listed(list, KeyOf(reg.fields[c].meta))
      ensures c in r1.state && r1.state[c] == Deleting
    {
      assert SiftedState(reg, kids, list, r1, c);
    }
  }

  /**
   * updateFileNodeData with a listing of at most one entry: the folder's
   * contents become known, its list of children is emptied, no other field
   * changes, and every former child is being deleted.
   */
  lemma UpdatedClears(reg: Registry, root: NodeId, n: NodeId, list: seq<FileMeta>, next: NodeId)
    requires n in reg.fields && Sound(reg, root) && Fresh(reg, next) && |list| <= 1
    ensures var r := Updated(reg, root, n, list, next).0;
      && r.fields == reg.fields[n := reg.fields[n].(contentsKnown := true, children := [])]
      && forall c :: c in reg.fields[n].children ==> c in r.state && r.state[c] == Deleting
  {
    var info := reg.fields[n].(contentsKnown := true);
    var r0 := WithInfo(reg, n, info);
    WithInfoKeepsSound(reg, root, n, info, next);
    WfOwns(r0, root, n);
    ClearedFields(r0, n);
    ClearedStates(r0, n);
    var r := Updated(reg, root, n, list, next).0;
    assert r == Recomputed(Cleared(r0, n), n);
    assert r.fields == r0.fields[n := info.(children := [])];
    Overwritten(reg.fields, n, info, info.(children := []));
    forall c | c in reg.fields[n].children ensures c != n {
      assert r0.fields[c].parent == Some(n);
    }
  }

  /**
   * updateFileNodeData with a listing of more than one entry: the records
   * of the folder's children are InsertAll of the listing over the records
   * of the children the listing matched, their (full path, kind) keys are
   * exactly those of the listing's non-"." entries, and every child is
   * visible. The children the listing matched come first, in their old
   * order, followed by the nodes created for the new entries, numbered from
   * `next` on; every former child the listing did not match is being
   * deleted.
   */
  lemma UpdatedListing(reg: Registry, root: NodeId, n: NodeId, list: seq<FileMeta>, next: NodeId)
    requires n in reg.fields && Sound(reg, root) && Fresh(reg, next) && |list| > 1
    ensures var kids := reg.fields[n].children;
      var r := Updated(reg, root, n, list, next).0;
      && (forall i :: 0 <= i < |kids| ==> kids[i] in reg.fields)
      && (forall j :: 0 <= j < |r.fields[n].children| ==> r.fields[n].children[j] in r.fields)
      && Metas(r.fields, r.fields[n].children) == InsertAll(Metas(reg.fields, Retain(reg.fields, kids, list)), list)
      && KeySet(Metas(r.fields, r.fields[n].children)) == ListedKeys(list)
      && (forall c :: c in r.fields[n].children ==> r.fields[c].visible)
      && var kept := Retain(reg.fields, kids, list);
      && |kept| <= |r.fields[n].children| && r.fields[n].children[..|kept|] == kept
      && NumberedFrom(r.fields[n].children, |kept|, next, Updated(reg, root, n, list, next).1)
      && forall c :: c in kids && !Listed(list, KeyOf(reg.fields[c].meta)) ==> c in r.state && r.state[c] == Deleting
  {
    var kids := reg.fields[n].children;
    var info := reg.fields[n].(contentsKnown := true);
    var r0 := WithInfo(reg, n, info);
    WithInfoKeepsSound(reg, root, n, info, next);
    ReconciledMetas(r0, root, n, list, next);
    ReconciledShows(r0, root, n, list, next);
    ReconciledOrder(r0, root, n, list, next);
    ReconciledDeletes(r0, root, n, list, next);
    RetainedAfterInfo(reg.fields, n, info, list);
    ReconcileConverges(reg.fields, kids, list);
    var p := Reconciled(r0, root, n, list, next);
    assert Updated(reg, root, n, list, next).0 == Recomputed(p.0, n);
  }

  /**
   * updateFileNodeData changes nothing of the folder's own fields but its
   * contents-known flag, which it sets, its list of children and its
   * visibility, which it may only turn on; afterwards the folder is in the
   * state its fields select unless it is being deleted.
   */
  lemma UpdatedOwner(reg: Registry, root: NodeId, n: NodeId, list: seq<FileMeta>, next: NodeId)
    requires n in reg.fields && Sound(reg, root) && Fresh(reg, next)
    ensures var r := Updated(reg, root, n, list, next).0;
      && n in r.fields && n in r.state
      && r.fields[n] == reg.fields[n].(contentsKnown := true, children := r.fields[n].children,
                                       visible := r.fields[n].visible)
      && (reg.fields[n].visible ==> r.fields[n].visible)
      && (r.state[n] == Deleting || r.state[n] == StateOf(r.fields[n]))
  {
    var info := reg.fields[n].(contentsKnown := true);
    var r0 := WithInfo(reg, n, info);
    WithInfoKeepsSound(reg, root, n, info, next);
    WfOwns(r0, root, n);
    if |list| <= 1 {
      ClearedFields(r0, n);
    } else {
      ReconciledShows(r0, root, n, list, next);
    }
  }

  /**
   * A visible folder without a pending listing task that is not being
   * deleted is loaded once its listing has been applied.
   */
  lemma UpdatedLoaded(reg: Registry, root: NodeId, n: NodeId, list: seq<FileMeta>, next: NodeId)
    requires n in reg.fields && Sound(reg, root) && Fresh(reg, next)
    requires reg.fields[n].meta.kind == Dir && reg.fields[n].lsTask.None?
    ensures var r := Updated(reg, root, n, list, next).0;
      n in r.state && (r.fields[n].visible && r.state[n] != Deleting ==> r.state[n] == FolderContentsLoaded)
  {
    UpdatedOwner(reg, root, n, list, next);
  }
}
