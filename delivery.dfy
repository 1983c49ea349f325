/**
 * The entry points through which the file operator and the remote tasks
 * drive a node: the root constructor, the two task setters, setFileBuffer,
 * deleteFolderContentsData and the replies of the listing and download
 * tasks.
 */
module Deliveries {
  import opened Wrappers
  import opened Metadata
  import opened NodeStates
  import opened Projection
  import opened Tree
  import opened Reconcile
  import opened Effects
  import opened Operations
  import opened Updates

  // ---------------------------------------------------------------------
  // The root constructor
  // ---------------------------------------------------------------------

  /**
   * The fields of a new root: the record of the root folder as a directory,
   * no parent, visible, without children, buffer or tasks, contents unknown.
   */
  function RootInfo(meta: FileMeta): (info: NodeInfo)
  {
    NodeInfo(meta.(kind := Dir), None, 0, [], true, false, None, None, None)
  }

  /** The root constructor: node `root` alone, in Init without rows, then its state recomputed. */
  ghost function Rooted(meta: FileMeta, root: NodeId): (r: Registry)
  {
    Recomputed(Registry(map[root := RootInfo(meta)], map[root := Init], map[root := NoRows]), root)
  }

  /**
   * A new root is a sound one-node tree, a visible directory whose contents
   * are not known yet, with its row at the top level showing the "Loading"
   * placeholder; every identity above it is unused.
   */
  lemma RootedSound(meta: FileMeta, root: NodeId)
    ensures var r := Rooted(meta, root);
      && Sound(r, root) && Fresh(r, root + 1)
      && r.fields[root] == RootInfo(meta)
      && r.state[root] == FolderKnownContentsNot
      && r.view[root] == RowView(true, Some(LoadingText))
  {
    var r0 := Registry(map[root := RootInfo(meta)], map[root := Init], map[root := NoRows]);
    LoneRootSound(meta, root);
    RecomputedKeepsSound(r0, root, root, root + 1);
  }

  /** The root alone, before its state is computed, is a sound tree. */
  lemma LoneRootSound(meta: FileMeta, root: NodeId)
    ensures var r0 := Registry(map[root := RootInfo(meta)], map[root := Init], map[root := NoRows]);
      Sound(r0, root) && Fresh(r0, root + 1)
  {
    var r0 := Registry(map[root := RootInfo(meta)], map[root := Init], map[root := NoRows]);
    assert Metas(r0.fields, []) == [];
    assert Shaped(r0.fields, root);
  }

  // ---------------------------------------------------------------------
  // setLStask and setBuffTask
  // ---------------------------------------------------------------------

  /**
   * setLStask: no task, or a node that is not a directory, changes nothing;
   * otherwise the node records the task and its state is recomputed.
   */
  ghost function LsTaskSet(reg: Registry, n: NodeId, task: Option<TaskId>): (r: Registry)
    requires Has(reg, n)
  {
    if task.None? || reg.fields[n].meta.kind != Dir then reg
    else Recomputed(WithInfo(reg, n, reg.fields[n].(lsTask := task)), n)
  }

  /** setBuffTask: as setLStask, for a node that is a file. */
  ghost function BuffTaskSet(reg: Registry, n: NodeId, task: Option<TaskId>): (r: Registry)
    requires Has(reg, n)
  {
    if task.None? || reg.fields[n].meta.kind != File then reg
    else Recomputed(WithInfo(reg, n, reg.fields[n].(buffTask := task)), n)
  }

  /**
   * setLStask changes nothing unless given a task for a directory; then the
   * task is the only field that changes and the directory, unless being
   * deleted, is busy, speculatively so exactly when hidden.
   */
  lemma LsTaskSetEffect(reg: Registry, n: NodeId, task: Option<TaskId>)
    requires Has(reg, n)
    ensures var r := LsTaskSet(reg, n, task);
      && (task.None? || reg.fields[n].meta.kind != Dir ==> r == reg)
      && (task.Some? && reg.fields[n].meta.kind == Dir ==>
            && r.fields == reg.fields[n := reg.fields[n].(lsTask := task)]
            && (reg.state[n] != Deleting ==>
                  IsBusy(r.state[n]) && (IsSpeculative(r.state[n]) <==> !reg.fields[n].visible)))
  {
  }

  /**
   * setBuffTask changes nothing unless given a task for a file; then the
   * task is the only field that changes and the file, unless being deleted,
   * is busy, speculatively so exactly when hidden.
   */
  lemma BuffTaskSetEffect(reg: Registry, n: NodeId, task: Option<TaskId>)
    requires Has(reg, n)
    ensures var r := BuffTaskSet(reg, n, task);
      && (task.None? || reg.fields[n].meta.kind != File ==> r == reg)
      && (task.Some? && reg.fields[n].meta.kind == File ==>
            && r.fields == reg.fields[n := reg.fields[n].(buffTask := task)]
            && (reg.state[n] != Deleting ==>
                  IsBusy(r.state[n]) && (IsSpeculative(r.state[n]) <==> !reg.fields[n].visible)))
  {
  }

  /** setLStask keeps the invariants and the unused identities. */
  lemma LsTaskSetKeepsSound(reg: Registry, root: NodeId, n: NodeId, task: Option<TaskId>, next: NodeId)
    requires n in reg.fields && Sound(reg, root) && Fresh(reg, next)
    ensures Has(reg, n)
    ensures Sound(LsTaskSet(reg, n, task), root) && Fresh(LsTaskSet(reg, n, task), next)
  {
    if task.Some? && reg.fields[n].meta.kind == Dir {
      var info := reg.fields[n].(lsTask := task);
      WithInfoKeepsSound(reg, root, n, info, next);
      RecomputedKeepsSound(WithInfo(reg, n, info), root, n, next);
      assert LsTaskSet(reg, n, task) == Recomputed(WithInfo(reg, n, info), n);
    } else {
      assert LsTaskSet(reg, n, task) == reg;
    }
  }

  /** setBuffTask keeps the invariants and the unused identities. */
  lemma BuffTaskSetKeepsSound(reg: Registry, root: NodeId, n: NodeId, task: Option<TaskId>, next: NodeId)
    requires n in reg.fields && Sound(reg, root) && Fresh(reg, next)
    ensures Has(reg, n)
    ensures Sound(BuffTaskSet(reg, n, task), root) && Fresh(BuffTaskSet(reg, n, task), next)
  {
    if task.Some? && reg.fields[n].meta.kind == File {
      var info := reg.fields[n].(buffTask := task);
      WithInfoKeepsSound(reg, root, n, info, next);
      RecomputedKeepsSound(WithInfo(reg, n, info), root, n, next);
      assert BuffTaskSet(reg, n, task) == Recomputed(WithInfo(reg, n, info), n);
    } else {
      assert BuffTaskSet(reg, n, task) == reg;
    }
  }

  // ---------------------------------------------------------------------
  // setFileBuffer
  // ---------------------------------------------------------------------

  /**
   * setFileBuffer: the node holds a copy of `buf` (nothing when `buf` is
   * null), is made visible with its ancestors, and its state is recomputed.
   */
  ghost function BufferSet(reg: Registry, n: NodeId, buf: Option<Bytes>): (r: Registry)
    requires Ranked(reg.fields) && Has(reg, n)
  {
    var r0 := WithInfo(reg, n, reg.fields[n].(buffer := buf));
    SameLinksRanked(reg.fields, r0.fields);
    Recomputed(Revealed(r0, n), n)
  }

  /**
   * After setFileBuffer the node holds the buffer and is visible, no other
   * field of it changed, other nodes changed at most by becoming visible,
   * and the node is in the state its fields select unless being deleted.
   */
  lemma BufferSetEffect(reg: Registry, n: NodeId, buf: Option<Bytes>)
    requires Ranked(reg.fields) && Has(reg, n)
    ensures var r := BufferSet(reg, n, buf);
      && ShowsMore(reg.fields[n := reg.fields[n].(buffer := buf)], r.fields)
      && r.fields[n] == reg.fields[n].(buffer := buf, visible := true)
      && (r.state[n] == Deleting || r.state[n] == StateOf(r.fields[n]))
  {
    var r0 := WithInfo(reg, n, reg.fields[n].(buffer := buf));
    SameLinksRanked(reg.fields, r0.fields);
    RevealedShows(r0, n);
  }

  /** setFileBuffer keeps the invariants and the unused identities. */
  lemma BufferSetKeepsSound(reg: Registry, root: NodeId, n: NodeId, buf: Option<Bytes>, next: NodeId)
    requires n in reg.fields && Sound(reg, root) && Fresh(reg, next)
    ensures Ranked(reg.fields) && Has(reg, n)
    ensures Sound(BufferSet(reg, n, buf), root) && Fresh(BufferSet(reg, n, buf), next)
  {
    var r0 := WithInfo(reg, n, reg.fields[n].(buffer := buf));
    WithInfoKeepsSound(reg, root, n, reg.fields[n].(buffer := buf), next);
    ClosedExcept(r0.fields, n);
    RevealedKeepsShape(r0, root, n);
    var r1 := Revealed(r0, n);
    FreshKept(r0, r1, next);
    RecomputedKeepsSound(r1, root, n, next);
  }

  // ---------------------------------------------------------------------
  // deleteFolderContentsData
  // ---------------------------------------------------------------------

  /** deleteFolderContentsData: the folder's contents become unknown and its children are cleared. */
  ghost function FolderContentsDeleted(reg: Registry, root: NodeId, n: NodeId): (r: Registry)
    requires n in reg.fields && Wf(reg, root)
  {
    var r0 := WithInfo(reg, n, reg.fields[n].(contentsKnown := false));
    SameLinksRanked(reg.fields, r0.fields);
    WfOwnsAfterInfo(reg, root, n, reg.fields[n].(contentsKnown := false));
    Cleared(r0, n)
  }

  /** Replacing a node's fields by fields with the same children keeps it owning them. */
  lemma WfOwnsAfterInfo(reg: Registry, root: NodeId, n: NodeId, info: NodeInfo)
    requires n in reg.fields && Wf(reg, root) && info.children == reg.fields[n].children
    requires info.parent == reg.fields[n].parent
    ensures Owns(WithInfo(reg, n, info), n)
  {
    WfOwns(reg, root, n);
    var r0 := WithInfo(reg, n, info);
    forall c | c in info.children ensures Has(r0, c) && r0.fields[c].parent == Some(n) {
      assert reg.fields[c].parent == Some(n);
    }
  }

  /**
   * After deleteFolderContentsData the folder has no children and unknown
   * contents, no other field changed, and every former child is being
   * deleted.
   */
  lemma FolderContentsDeletedEffect(reg: Registry, root: NodeId, n: NodeId)
    requires n in reg.fields && Wf(reg, root)
    ensures var r := FolderContentsDeleted(reg, root, n);
      && r.fields == reg.fields[n := reg.fields[n].(contentsKnown := false, children := [])]
      && forall c :: c in reg.fields[n].children ==> c in r.state && r.state[c] == Deleting
  {
    var info := reg.fields[n].(contentsKnown := false);
    var r0 := WithInfo(reg, n, info);
    WfOwnsAfterInfo(reg, root, n, info);
    ClearedFields(r0, n);
    ClearedStates(r0, n);
    Overwritten(reg.fields, n, info, info.(children := []));
  }

  /** deleteFolderContentsData keeps the invariants and the unused identities. */
  lemma FolderContentsDeletedKeepsSound(reg: Registry, root: NodeId, n: NodeId, next: NodeId)
    requires n in reg.fields && Sound(reg, root) && Fresh(reg, next)
    ensures Sound(FolderContentsDeleted(reg, root, n), root) && Fresh(FolderContentsDeleted(reg, root, n), next)
  {
    var info := reg.fields[n].(contentsKnown := false);
    WithInfoKeepsSound(reg, root, n, info, next);
    ClearedKeepsSound(WithInfo(reg, n, info), root, n, next);
  }

  // ---------------------------------------------------------------------
  // deliverBuffData
  // ---------------------------------------------------------------------

  /**
   * deliverBuffData: the download task is dropped; on success the node's
   * buffer is set to the data (nothing when the data is null), a node that
   * was not found is sent to Deleting, and on any other failure its state is
   * recomputed.
   */
  ghost function BufferDelivered(reg: Registry, n: NodeId, outcome: RequestOutcome, data: Option<Bytes>): (r: Registry)
    requires Ranked(reg.fields) && Has(reg, n)
  {
    var r0 := WithInfo(reg, n, reg.fields[n].(buffTask := None));
    SameLinksRanked(reg.fields, r0.fields);
    match outcome
    case Good => BufferSet(r0, n, data)
    case FileNotFound => StateChanged(r0, n, Deleting)
    case OtherFailure => Recomputed(r0, n)
  }

  /**
   * After a download reply the node has no download task. On success it
   * holds the data and is visible, and a file not being deleted is loaded
   * when the data is there and known otherwise; a node not found is being
   * deleted and, unless it already was, has left its parent's list of
   * children, no other field changing; after any other failure no other field changed and a node not
   * being deleted is in the state its fields select, which is not busy for
   * a file.
   */
  lemma BufferDeliveredEffect(reg: Registry, n: NodeId, outcome: RequestOutcome, data: Option<Bytes>)
    requires Ranked(reg.fields) && Has(reg, n)
    ensures var r := BufferDelivered(reg, n, outcome, data);
      && n in r.fields && n in r.state
      && (outcome == Good ==>
            && r.fields[n] == reg.fields[n].(buffTask := None, buffer := data, visible := true)
            && (reg.fields[n].meta.kind == File && r.state[n] != Deleting ==>
                  r.state[n] == if data.Some? then FileBuffLoaded else FileKnown))
      && (outcome == FileNotFound ==> r.state[n] == Deleting)
      && (outcome == FileNotFound && reg.state[n] != Deleting ==>
            r.fields == Unlisted(reg.fields[n := reg.fields[n].(buffTask := None)], n))
      && (outcome == FileNotFound && reg.state[n] == Deleting ==>
            r.fields == reg.fields[n := reg.fields[n].(buffTask := None)])
      && (outcome == OtherFailure ==>
            && r.fields == reg.fields[n := reg.fields[n].(buffTask := None)]
            && (reg.state[n] != Deleting ==> r.state[n] == StateOf(r.fields[n]))
            && (reg.fields[n].meta.kind == File && reg.state[n] != Deleting ==> !IsBusy(r.state[n])))
  {
    var r0 := WithInfo(reg, n, reg.fields[n].(buffTask := None));
    SameLinksRanked(reg.fields, r0.fields);
    if outcome == Good {
      BufferSetEffect(r0, n, data);
    }
  }

  /** deliverBuffData keeps the invariants and the unused identities. */
  lemma BufferDeliveredKeepsSound(reg: Registry, root: NodeId, n: NodeId, outcome: RequestOutcome,
                                  data: Option<Bytes>, next: NodeId)
    requires n in reg.fields && Sound(reg, root) && Fresh(reg, next)
    ensures Ranked(reg.fields) && Has(reg, n)
    ensures Sound(BufferDelivered(reg, n, outcome, data), root) && Fresh(BufferDelivered(reg, n, outcome, data), next)
  {
    var info := reg.fields[n].(buffTask := None);
    var r0 := WithInfo(reg, n, info);
    WithInfoKeepsSound(reg, root, n, info, next);
    match outcome {
      case Good => BufferSetKeepsSound(r0, root, n, data, next);
      case FileNotFound => StateChangedKeepsSound(r0, root, n, Deleting, next);
      case OtherFailure => RecomputedKeepsSound(r0, root, n, next);
    }
  }

  // ---------------------------------------------------------------------
  // deliverLSdata
  // ---------------------------------------------------------------------

  /**
   * deliverLSdata: the listing task is dropped; on success a listing meant
   * for this node is applied with updateFileNodeData and any other listing
   * only recomputes the state; a node that was not found is sent to
   * Deleting; on any other failure the state is recomputed. The second
   * component is the next unused identity.
   */
  ghost function ListingDelivered(reg: Registry, root: NodeId, n: NodeId, outcome: RequestOutcome,
                                  list: seq<FileMeta>, next: NodeId): (r: (Registry, NodeId))
    requires n in reg.fields && Sound(reg, root) && Fresh(reg, next)
    ensures Sound(r.0, root) && Fresh(r.0, r.1) && next <= r.1
  {
    var info := reg.fields[n].(lsTask := None);
    var r0 := WithInfo(reg, n, info);
    WithInfoKeepsSound(reg, root, n, info, next);
    match outcome
    case Good =>
      if !VerifyControl(r0.fields, n, list) then
        RecomputedKeepsSound(r0, root, n, next);
        (Recomputed(r0, n), next)
      else Updated(r0, root, n, list, next)
    case FileNotFound =>
      StateChangedKeepsSound(r0, root, n, Deleting, next);
      (StateChanged(r0, n, Deleting), next)
    case OtherFailure =>
      RecomputedKeepsSound(r0, root, n, next);
      (Recomputed(r0, n), next)
  }

  /** Dropping the listing task changes nothing a search reads. */
  lemma TaskDroppedNav(reg: Registry, n: NodeId)
    requires n in reg.fields
    ensures SameNav(reg.fields, reg.fields[n := reg.fields[n].(lsTask := None)])
  {
  }

  /**
   * A listing reply that fails, or that succeeds but is not meant for this
   * node, only drops the listing task and recomputes the node's state.
   */
  lemma ListingDeliveredRejected(reg: Registry, root: NodeId, n: NodeId, outcome: RequestOutcome,
                                 list: seq<FileMeta>, next: NodeId)
    requires n in reg.fields && Sound(reg, root) && Fresh(reg, next)
    requires outcome == OtherFailure || (outcome == Good && !VerifyControl(reg.fields, n, list))
    ensures var r := ListingDelivered(reg, root, n, outcome, list, next);
      && r.1 == next
      && r.0.fields == reg.fields[n := reg.fields[n].(lsTask := None)]
      && (reg.state[n] != Deleting ==> r.0.state[n] == StateOf(r.0.fields[n]))
  {
    TaskDroppedNav(reg, n);
    VerifyControlFrame(reg.fields, reg.fields[n := reg.fields[n].(lsTask := None)], n, list);
  }

  /**
   * A node whose listing reply says it was not found loses its listing task
   * and is being deleted; unless it already was, it has left its parent's
   * list of children. No other field changes.
   */
  lemma ListingDeliveredNotFound(reg: Registry, root: NodeId, n: NodeId, list: seq<FileMeta>, next: NodeId)
    requires n in reg.fields && Sound(reg, root) && Fresh(reg, next)
    ensures n in reg.state
    ensures var r := ListingDelivered(reg, root, n, FileNotFound, list, next);
      && r.1 == next && n in r.0.state && r.0.state[n] == Deleting
      && (reg.state[n] != Deleting ==> r.0.fields == Unlisted(reg.fields[n := reg.fields[n].(lsTask := None)], n))
      && (reg.state[n] == Deleting ==> r.0.fields == reg.fields[n := reg.fields[n].(lsTask := None)])
  {
  }

  /**
   * A successful listing reply meant for this node is applied: the node
   * has no listing task and known contents; a listing of at most one entry
   * leaves it without children and sends every former child to Deleting; a
   * longer one leaves it exactly the children the listing's non-"." entries
   * name, all visible, with the records InsertAll gives: first the former
   * children the listing matched, in their old order, then the nodes
   * created for the new entries; every former child it did not match is
   * being deleted. A visible directory not being deleted is loaded.
   */
  lemma ListingDeliveredApplied(reg: Registry, root: NodeId, n: NodeId, list: seq<FileMeta>, next: NodeId)
    requires n in reg.fields && Sound(reg, root) && Fresh(reg, next)
    requires VerifyControl(reg.fields, n, list)
    ensures Owns(reg, n)
    ensures var r := ListingDelivered(reg, root, n, Good, list, next).0;
      var kids := reg.fields[n].children;
      var kept := Retain(reg.fields, kids, list);
      && n in r.fields && n in r.state
      && r.fields[n].contentsKnown && r.fields[n].lsTask.None?
      && (|list| <= 1 ==>
            && r.fields[n].children == []
            && forall c :: c in kids ==> c in r.state && r.state[c] == Deleting)
      && (|list| > 1 ==>
            && (forall j :: 0 <= j < |r.fields[n].children| ==> r.fields[n].children[j] in r.fields)
            && Metas(r.fields, r.fields[n].children) == InsertAll(Metas(reg.fields, kept), list)
            && KeySet(Metas(r.fields, r.fields[n].children)) == ListedKeys(list)
            && (forall c :: c in r.fields[n].children ==> r.fields[c].visible)
            && |kept| <= |r.fields[n].children| && r.fields[n].children[..|kept|] == kept
            && NumberedFrom(r.fields[n].children, |kept|, next, ListingDelivered(reg, root, n, Good, list, next).1)
            && forall c :: c in kids && !Listed(list, KeyOf(reg.fields[c].meta)) ==> c in r.state && r.state[c] == Deleting)
      && (reg.fields[n].meta.kind == Dir && r.fields[n].visible && r.state[n] != Deleting ==>
            r.state[n] == FolderContentsLoaded)
  {
    WfOwns(reg, root, n);
    var info := reg.fields[n].(lsTask := None);
    var r0 := WithInfo(reg, n, info);
    WithInfoKeepsSound(reg, root, n, info, next);
    TaskDroppedNav(reg, n);
    VerifyControlFrame(reg.fields, r0.fields, n, list);
    assert ListingDelivered(reg, root, n, Good, list, next) == Updated(r0, root, n, list, next);
    UpdatedOwner(r0, root, n, list, next);
    if reg.fields[n].meta.kind == Dir {
      UpdatedLoaded(r0, root, n, list, next);
    }
    if |list| <= 1 {
      UpdatedClears(r0, root, n, list, next);
    } else {
      OwnedInFields(reg, n);
      RetainedAfterInfo(reg.fields, n, info, list);
      UpdatedListing(r0, root, n, list, next);
    }
  }
}
