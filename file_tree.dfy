/**
 * FileTreeNode as a class over the node registry: every operation of a
 * node is a method of FileTree taking the node's identity, updating the
 * registry in place and appending to the log of change notifications sent
 * to the file operator. Each method is proved to compute the registry that
 * the specification functions of the other modules describe.
 */
module FileTreeNodes {
  import opened Wrappers
  import opened Metadata
  import opened NodeStates
  import opened Projection
  import opened Tree
  import opened Reconcile
  import opened Effects
  import opened Operations
  import opened Updates
  import opened Deliveries

  /**
   * The matching loop of purgeUnmatchedChildren: whether a non-"." entry of
   * the listing has the given (full path, kind).
   */
  method FindMatch(list: seq<FileMeta>, k: Key) returns (found: bool)
    ensures found == Listed(list, k)
  {
    found := false;
    var i := 0;
    while i < |list| && !found
      invariant 0 <= i <= |list|
      invariant found <==> exists j :: 0 <= j < i && !IsSelfEntry(list[j]) && KeyOf(list[j]) == k
    {
      if !IsSelfEntry(list[i]) && KeyOf(list[i]) == k {
        found := true;
      }
      i := i + 1;
    }
  }

  /** getControlAddress: the containing path of the first "." entry, or the empty path. */
  method GetControlAddress(list: seq<FileMeta>) returns (address: seq<string>)
    ensures address == ControlAddress(list)
  {
    var i := 0;
    while i < |list|
      invariant 0 <= i <= |list|
      invariant ControlAddress(list[i..]) == ControlAddress(list)
    {
      assert list[i..][1..] == list[i + 1..];
      if IsSelfEntry(list[i]) {
        return list[i].containingPath;
      }
      i := i + 1;
    }
    return [];
  }

  /** A round of clearAllChildren leaves what remains to be done unchanged. */
  lemma ClearStep(reg: Registry, n: NodeId)
    requires n in reg.fields && Owns(reg, n) && reg.fields[n].children != []
    ensures var r := TakenLast(reg, n);
      && n in r.fields && Owns(r, n) && |r.fields[n].children| < |reg.fields[n].children|
      && Cleared(r, n) == Cleared(reg, n)
  {
    TakeLastStep(reg, n);
  }

  /** A round of the sifting loop of purgeUnmatchedChildren leaves what remains to be done unchanged. */
  lemma SiftStepNext(reg: Registry, n: NodeId, list: seq<FileMeta>, alt: seq<NodeId>)
    requires n in reg.fields && Owns(reg, n) && reg.fields[n].children != []
    ensures var r := SiftStep(reg, n, list, alt);
      && n in r.0.fields && Owns(r.0, n) && |r.0.fields[n].children| < |reg.fields[n].children|
      && Sifted(r.0, n, list, r.1) == Sifted(reg, n, list, alt)
  {
  }

  /** updateFileNodeData on a listing of at most one entry, step by step. */
  lemma UpdatedClearing(reg: Registry, root: NodeId, n: NodeId, list: seq<FileMeta>, next: NodeId)
    requires n in reg.fields && Sound(reg, root) && Fresh(reg, next) && |list| <= 1
    ensures var r0 := WithInfo(reg, n, reg.fields[n].(contentsKnown := true));
      && Owns(r0, n) && Has(r0, n)
      && Updated(reg, root, n, list, next) == (Recomputed(Cleared(r0, n), n), next)
  {
    var r0 := WithInfo(reg, n, reg.fields[n].(contentsKnown := true));
    WithInfoKeepsSound(reg, root, n, reg.fields[n].(contentsKnown := true), next);
    WfOwns(r0, root, n);
  }

  /** updateFileNodeData on a listing of more than one entry, step by step. */
  lemma UpdatedReconciling(reg: Registry, root: NodeId, n: NodeId, list: seq<FileMeta>, next: NodeId)
    requires n in reg.fields && Sound(reg, root) && Fresh(reg, next) && |list| > 1
    ensures var r0 := WithInfo(reg, n, reg.fields[n].(contentsKnown := true));
      && Sound(r0, root) && Fresh(r0, next)
      && Updated(reg, root, n, list, next) ==
         (Recomputed(Reconciled(r0, root, n, list, next).0, n), Reconciled(r0, root, n, list, next).1)
  {
    WithInfoKeepsSound(reg, root, n, reg.fields[n].(contentsKnown := true), next);
  }

  /** The middle of updateFileNodeData, step by step: purge, insert each entry, show each child. */
  lemma ReconciledSteps(reg: Registry, root: NodeId, n: NodeId, list: seq<FileMeta>, next: NodeId)
    requires n in reg.fields && Sound(reg, root) && Fresh(reg, next)
    ensures Owns(reg, n)
    ensures var r1 := Purged(reg, n, list);
      && n in r1.fields && Owns(r1, n) && Fresh(r1, next)
      && var p := InsertedAll(r1, n, list, next);
      && Ranked(p.0.fields)
      && (forall i :: 0 <= i < |p.0.fields[n].children| ==> Has(p.0, p.0.fields[n].children[i]))
      && Reconciled(reg, root, n, list, next) == (RevealedAll(p.0, p.0.fields[n].children), p.1)
  {
    PurgedKeepsSound(reg, root, n, list, next);
    var r1 := Purged(reg, n, list);
    InsertedAllKeepsShape(r1, root, n, list, next);
    var r2 := InsertedAll(r1, n, list, next).0;
    OwnedInFields(r2, n);
    RevealedAllKeepsSound(r2, root, r2.fields[n].children);
  }

  /** Replacing a node's fields by fields with the same parent and depth keeps the ranking. */
  lemma InfoRanked(fs: Fields, n: NodeId, info: NodeInfo)
    requires Ranked(fs) && n in fs && info.parent == fs[n].parent && info.depth == fs[n].depth
    ensures Ranked(fs[n := info])
  {
    SameLinksRanked(fs, fs[n := info]);
  }

  /** deliverLSdata, step by step: the task is dropped, then each outcome has its own effect. */
  lemma ListingDeliveredSteps(reg: Registry, root: NodeId, n: NodeId, outcome: RequestOutcome,
                              list: seq<FileMeta>, next: NodeId)
    requires n in reg.fields && Sound(reg, root) && Fresh(reg, next)
    ensures var r0 := WithInfo(reg, n, reg.fields[n].(lsTask := None));
      && Sound(r0, root) && Fresh(r0, next) && Has(r0, n)
      && ListingDelivered(reg, root, n, outcome, list, next) ==
         match outcome
         case Good =>
           if !VerifyControl(r0.fields, n, list) then (Recomputed(r0, n), next) else Updated(r0, root, n, list, next)
         case FileNotFound => (StateChanged(r0, n, Deleting), next)
         case OtherFailure => (Recomputed(r0, n), next)
  {
    WithInfoKeepsSound(reg, root, n, reg.fields[n].(lsTask := None), next);
  }

  /** Extending a log twice extends it. */
  lemma PrefixTrans(a: seq<FileMeta>, b: seq<FileMeta>, c: seq<FileMeta>)
    requires a <= b && b <= c
    ensures a <= c
  {
  }

  class FileTree {
    /** Every FileTreeNode object, by identity. */
    var reg: Registry
    var root: NodeId
    /** The identity the next node created receives. */
    var nextId: NodeId
    /** The records passed to the file operator's fileNodesChange, oldest first. */
    var changes: seq<FileMeta>

    /** The tree invariants hold and every identity from `nextId` on is unused. */
    ghost predicate Valid()
      reads this
    {
      Sound(reg, root) && Fresh(reg, nextId)
    }

    /**
     * The root constructor: a visible directory named after the root folder,
     * alone in the tree, whose state is then computed.
     */
    constructor (meta: FileMeta)
      ensures Valid()
      ensures reg == Rooted(meta, 0) && root == 0 && nextId == 1
      ensures reg.fields[root] == RootInfo(meta) && reg.state[root] == FolderKnownContentsNot
    {
      reg := Registry(map[0 := RootInfo(meta)], map[0 := Init], map[0 := NoRows]);
      root := 0;
      nextId := 1;
      changes := [];
      new;
      RecomputeState(0);
      RootedSound(meta, 0);
    }

    // -------------------------------------------------------------------
    // Read-only walks
    // -------------------------------------------------------------------

    /** getChildNodeWithName: the first child of `n` with that name whose kind is not INVALID. */
    method GetChildNodeWithName(n: NodeId, name: string) returns (r: Option<NodeId>)
      requires n in reg.fields && ChildrenLinked(reg.fields)
      ensures r == ChildWithName(reg.fields, reg.fields[n].children, name)
    {
      var kids := reg.fields[n].children;
      var i := 0;
      while i < |kids|
        invariant 0 <= i <= |kids|
        invariant forall j :: 0 <= j < i ==> !Named(reg.fields, kids[j], name)
      {
        if reg.fields[kids[i]].meta.name == name && reg.fields[kids[i]].meta.kind != Invalid {
          return Some(kids[i]);
        }
        i := i + 1;
      }
      return None;
    }

    /** isChildOf: walk up from `n` looking for `possibleParent`, stopping at the root. */
    method IsChildOfNode(n: NodeId, possibleParent: Option<NodeId>) returns (r: bool)
      requires Ranked(reg.fields) && n in reg.fields
      ensures r == IsChildOf(reg.fields, n, possibleParent)
    {
      if possibleParent.None? {
        return false;
      }
      var nodeToCheck := n;
      while true
        invariant nodeToCheck in reg.fields
        invariant IsChildOf(reg.fields, nodeToCheck, possibleParent) == IsChildOf(reg.fields, n, possibleParent)
        decreases reg.fields[nodeToCheck].depth
      {
        if nodeToCheck == possibleParent.value {
          return true;
        }
        if reg.fields[nodeToCheck].parent.None? {
          return false;
        }
        nodeToCheck := reg.fields[nodeToCheck].parent.value;
      }
    }

    /** pathSearchHelperFromAnyNode: follow `parts` down from `n`, one child per segment. */
    method SearchFromNode(n: NodeId, parts: seq<string>, stopEarly: bool) returns (r: Option<NodeId>)
      requires ChildrenLinked(reg.fields) && n in reg.fields
      ensures r == SearchFrom(reg.fields, n, parts, stopEarly)
    {
      var searchNode := n;
      var i := 0;
      while i < |parts|
        invariant 0 <= i <= |parts| && searchNode in reg.fields
        invariant SearchFrom(reg.fields, searchNode, parts[i..], stopEarly) == SearchFrom(reg.fields, n, parts, stopEarly)
      {
        assert parts[i..][1..] == parts[i + 1..];
        var nextNode := GetChildNodeWithName(searchNode, parts[i]);
        if nextNode.None? {
          if stopEarly {
            return Some(searchNode);
          }
          return None;
        }
        searchNode := nextNode.value;
        i := i + 1;
      }
      return Some(searchNode);
    }

    /** pathSearchHelper: only the root answers, and only for a path starting with its own name. */
    method PathSearchNode(n: NodeId, parts: seq<string>, stopEarly: bool) returns (r: Option<NodeId>)
      requires ChildrenLinked(reg.fields) && n in reg.fields
      ensures r == PathSearch(reg.fields, n, parts, stopEarly)
    {
      if reg.fields[n].parent.Some? || parts == [] || parts[0] != reg.fields[n].meta.name {
        return None;
      }
      r := SearchFromNode(n, parts[1..], stopEarly);
    }

    /** verifyControlNode: the listing's "." entry, searched from the top of `n`'s chain, leads to `n`. */
    method VerifyControlNode(n: NodeId, list: seq<FileMeta>) returns (b: bool)
      requires Ranked(reg.fields) && ChildrenLinked(reg.fields) && n in reg.fields
      ensures b == VerifyControl(reg.fields, n, list)
    {
      var address := GetControlAddress(list);
      if address == [] {
        return false;
      }
      var top := n;
      while reg.fields[top].parent.Some?
        invariant top in reg.fields && RootOf(reg.fields, top) == RootOf(reg.fields, n)
        decreases reg.fields[top].depth
      {
        top := reg.fields[top].parent.value;
      }
      var found := PathSearchNode(top, address, false);
      return found == Some(n);
    }

    // -------------------------------------------------------------------
    // Rows and states
    // -------------------------------------------------------------------

    /** The loop of updateModelItems: whether some child of `n` is visible. */
    method HasVisibleChild(n: NodeId) returns (b: bool)
      requires n in reg.fields
      ensures b == ChildVisible(reg.fields, n)
    {
      var kids := reg.fields[n].children;
      var i := 0;
      while i < |kids|
        invariant 0 <= i <= |kids|
        invariant forall j :: 0 <= j < i ==> !(kids[j] in reg.fields && reg.fields[kids[j]].visible)
      {
        if kids[i] in reg.fields && reg.fields[kids[i]].visible {
          return true;
        }
        i := i + 1;
      }
      return false;
    }

    /** updateModelItems: create or refresh `n`'s row and redo its placeholder. */
    method UpdateRows(n: NodeId, contentsLoaded: bool)
      requires Has(reg, n)
      modifies this
      ensures reg == old(reg).(view := old(reg).view[n := Refreshed(old(reg).view[n], contentsLoaded,
                old(reg).fields[n].meta.kind == Dir, old(reg).fields[n].parent.None?,
                ParentHasRow(old(reg), n), ChildVisible(old(reg).fields, n))])
      ensures root == old(root) && nextId == old(nextId) && changes == old(changes)
    {
      var childVisible := HasVisibleChild(n);
      var parentHasRow := match reg.fields[n].parent
        case None => false
        case Some(p) => p in reg.view && reg.view[p].hasRow;
      var info := reg.fields[n];
      reg := reg.(view := reg.view[n := Refreshed(reg.view[n], contentsLoaded, info.meta.kind == Dir,
                                                 info.parent.None?, parentHasRow, childVisible)]);
    }

    /** recomputeModelItems: purge, refresh or keep `n`'s rows according to its state. */
    method RecomputeRows(n: NodeId)
      requires Has(reg, n)
      modifies this
      ensures reg == WithRows(old(reg), n)
      ensures root == old(root) && nextId == old(nextId) && changes == old(changes)
    {
      match ActionFor(reg.state[n])
      case Purge =>
        reg := reg.(view := reg.view[n := NoRows]);
      case Keep =>
        assert reg.view[n := reg.view[n]] == reg.view;
      case Refresh(loaded) =>
        UpdateRows(n, loaded);
    }

    /** The two recomputeModelItems calls of changeNodeState: the node's, then its parent's. */
    method RecomputeRowsAround(id: NodeId)
      requires Has(reg, id)
      modifies this
      ensures reg == RowsAround(old(reg), id)
      ensures root == old(root) && nextId == old(nextId) && changes == old(changes)
    {
      RecomputeRows(id);
      match reg.fields[id].parent {
        case None =>
        case Some(p) =>
          if Has(reg, p) {
            RecomputeRows(p);
          }
      }
    }

    /** deleteLater, once run: the destructor takes the node off its parent's list. */
    method Detach(id: NodeId)
      requires id in reg.fields
      modifies this
      ensures reg == old(reg).(fields := Unlisted(old(reg).fields, id))
      ensures root == old(root) && nextId == old(nextId) && changes == old(changes)
    {
      match reg.fields[id].parent {
        case None =>
        case Some(p) =>
          if p in reg.fields && id in reg.fields[p].children {
            reg := reg.(fields := reg.fields[p := reg.fields[p].(children := Remove(reg.fields[p].children, id))]);
          }
      }
    }

    /**
     * changeNodeState: ignored for a node being deleted or already in `s`;
     * otherwise the node enters `s`, its rows and its parent's rows are
     * recomputed and the file operator is told. A node entering Deleting is
     * then destroyed, which takes it off its parent's list.
     */
    method ChangeState(id: NodeId, s: NodeState)
      requires Has(reg, id)
      modifies this
      ensures reg == StateChanged(old(reg), id, s)
      ensures changes == old(changes) + if Transition(old(reg).state[id], s).1 then [old(reg).fields[id].meta] else []
      ensures root == old(root) && nextId == old(nextId) && old(changes) <= changes
    {
      var current := reg.state[id];
      if current == Deleting || s == current {
        return;
      }
      reg := reg.(state := reg.state[id := s]);
      RecomputeRowsAround(id);
      changes := changes + [reg.fields[id].meta];
      if s == Deleting {
        Detach(id);
      }
    }

    /**
     * recomputeNodeState: a node being deleted stays so; any other node is
     * sent to the state its fields select.
     */
    method RecomputeState(id: NodeId)
      requires Has(reg, id)
      modifies this
      ensures reg == Recomputed(old(reg), id)
      ensures changes == old(changes) + if Transition(old(reg).state[id], StateOf(old(reg).fields[id])).1
                                        then [old(reg).fields[id].meta] else []
      ensures root == old(root) && nextId == old(nextId) && old(changes) <= changes
    {
      if reg.state[id] == Deleting {
        return;
      }
      ChangeState(id, StateOf(reg.fields[id]));
    }

    /**
     * setNodeVisible: a hidden node becomes visible, then its parent is made
     * visible the same way, then the node's state is recomputed; a visible
     * node is left alone.
     */
    method SetNodeVisible(id: NodeId)
      requires Has(reg, id) && Ranked(reg.fields)
      modifies this
      decreases reg.fields[id].depth
      ensures reg == Revealed(old(reg), id)
      ensures root == old(root) && nextId == old(nextId) && old(changes) <= changes
    {
      if reg.fields[id].visible {
        return;
      }
      ghost var r0 := reg;
      reg := Shown(reg, id);
      SameLinksRanked(r0.fields, reg.fields);
      match reg.fields[id].parent {
        case None =>
        case Some(p) =>
          if Has(reg, p) {
            SetNodeVisible(p);
          }
      }
      RecomputeState(id);
    }

    /** An assignment to fields of node `n`. */
    method SetInfo(n: NodeId, info: NodeInfo)
      requires n in reg.fields
      modifies this
      ensures reg == WithInfo(old(reg), n, info)
      ensures root == old(root) && nextId == old(nextId) && changes == old(changes)
    {
      reg := WithInfo(reg, n, info);
    }

    // -------------------------------------------------------------------
    // Children
    // -------------------------------------------------------------------

    /** clearAllChildren: take the last child off the list and send it to Deleting, until none is left. */
    method ClearAllChildren(n: NodeId)
      requires n in reg.fields && Owns(reg, n)
      modifies this
      ensures reg == Cleared(old(reg), n)
      ensures root == old(root) && nextId == old(nextId) && old(changes) <= changes
    {
      while reg.fields[n].children != []
        invariant n in reg.fields && Owns(reg, n)
        invariant Cleared(reg, n) == Cleared(old(reg), n)
        invariant root == old(root) && nextId == old(nextId) && old(changes) <= changes
        decreases |reg.fields[n].children|
      {
        ghost var r0 := reg;
        DeleteLastChild(n);
        ClearStep(r0, n);
      }
    }

    /** One round of clearAllChildren: takeLast on the list, then changeNodeState(DELETING) on the child taken. */
    method DeleteLastChild(n: NodeId)
      requires n in reg.fields && Owns(reg, n) && reg.fields[n].children != []
      modifies this
      ensures reg == TakenLast(old(reg), n)
      ensures root == old(root) && nextId == old(nextId) && old(changes) <= changes
    {
      var kids := reg.fields[n].children;
      var aChild := kids[|kids| - 1];
      assert aChild in kids;
      reg := WithChildren(reg, n, kids[..|kids| - 1]);
      ChangeState(aChild, Deleting);
    }

    /**
     * purgeUnmatchedChildren: every child is taken off the list, last first;
     * a child some non-"." entry of `list` matches on (full path, kind) is
     * kept aside and any other is sent to Deleting; then the kept children
     * are appended back, last kept first.
     */
    method PurgeUnmatchedChildren(n: NodeId, list: seq<FileMeta>)
      requires n in reg.fields && Owns(reg, n)
      modifies this
      ensures reg == Purged(old(reg), n, list)
      ensures root == old(root) && nextId == old(nextId) && old(changes) <= changes
    {
      if reg.fields[n].children == [] {
        return;
      }
      var altList: seq<NodeId> := [];
      while reg.fields[n].children != []
        invariant n in reg.fields && Owns(reg, n)
        invariant Sifted(reg, n, list, altList) == Sifted(old(reg), n, list, [])
        invariant root == old(root) && nextId == old(nextId) && old(changes) <= changes
        decreases |reg.fields[n].children|
      {
        ghost var r0, a0 := reg, altList;
        altList := SiftLastChild(n, list, altList);
        SiftStepNext(r0, n, list, a0);
      }
      ghost var r1 := reg;
      assert Sifted(old(reg), n, list, []) == (r1, altList);
      AppendBack(n, altList);
      assert [] + Reversed(altList) == Reversed(altList);
    }

    /** The second loop of purgeUnmatchedChildren: append the kept children back, last kept first. */
    method AppendBack(n: NodeId, altList: seq<NodeId>)
      requires n in reg.fields
      modifies this
      ensures reg == WithChildren(old(reg), n, old(reg).fields[n].children + Reversed(altList))
      ensures root == old(root) && nextId == old(nextId) && changes == old(changes)
    {
      var alt := altList;
      ghost var r1 := reg;
      while alt != []
        invariant n in reg.fields && reg == WithChildren(r1, n, reg.fields[n].children)
        invariant reg.fields[n].children + Reversed(alt) == r1.fields[n].children + Reversed(altList)
        invariant root == old(root) && nextId == old(nextId) && changes == old(changes)
        decreases |alt|
      {
        var last := alt[|alt| - 1];
        assert Reversed(alt) == [last] + Reversed(alt[..|alt| - 1]);
        alt := alt[..|alt| - 1];
        Overwritten(r1.fields, n, reg.fields[n], reg.fields[n].(children := reg.fields[n].children + [last]));
        reg := WithChildren(reg, n, reg.fields[n].children + [last]);
      }
      assert reg.fields[n].children + Reversed(alt) == reg.fields[n].children;
    }

    /**
     * One round of the first loop of purgeUnmatchedChildren: the last child
     * is taken off the list; it joins `altList` when a non-"." entry of
     * `list` matches it and is sent to Deleting otherwise.
     */
    method SiftLastChild(n: NodeId, list: seq<FileMeta>, altList: seq<NodeId>) returns (alt: seq<NodeId>)
      requires n in reg.fields && Owns(reg, n) && reg.fields[n].children != []
      modifies this
      ensures (reg, alt) == SiftStep(old(reg), n, list, altList)
      ensures root == old(root) && nextId == old(nextId) && old(changes) <= changes
    {
      var kids := reg.fields[n].children;
      var aNode := kids[|kids| - 1];
      assert aNode in kids;
      reg := WithChildren(reg, n, kids[..|kids| - 1]);
      var matchFound := FindMatch(list, KeyOf(reg.fields[aNode].meta));
      if matchFound {
        alt := altList + [aNode];
      } else {
        alt := altList;
        ChangeState(aNode, Deleting);
      }
    }

    /** The matching loop of insertFile: the first child of `n` with key `k`. */
    method FindChild(n: NodeId, k: Key) returns (r: Option<nat>)
      requires n in reg.fields && Owns(reg, n)
      ensures var kids := reg.fields[n].children;
        && (forall i :: 0 <= i < |kids| ==> kids[i] in reg.fields)
        && r == FindKey(Metas(reg.fields, kids), k)
    {
      OwnedInFields(reg, n);
      var kids := reg.fields[n].children;
      var i := 0;
      while i < |kids|
        invariant 0 <= i <= |kids|
        invariant forall j :: 0 <= j < i ==> KeyOf(Metas(reg.fields, kids)[j]) != k
      {
        if KeyOf(reg.fields[kids[i]].meta) == k {
          return Some(i);
        }
        i := i + 1;
      }
      return None;
    }

    /**
     * The child constructor: node `nextId` is built from `e`, appended to
     * `n`'s list, and its state computed.
     */
    method NewChild(n: NodeId, e: FileMeta)
      requires n in reg.fields && Fresh(reg, nextId)
      modifies this
      ensures reg == Adopted(old(reg), n, e, old(nextId)) && nextId == old(nextId) + 1
      ensures root == old(root) && old(changes) <= changes
    {
      var id := nextId;
      nextId := nextId + 1;
      reg := Constructed(reg, n, e, id);
      RecomputeState(id);
    }

    /**
     * insertFile: a "." entry is skipped; the first child matching `e` on
     * (full path, kind) takes `e`'s size when it differs; otherwise a new
     * child is built from `e`.
     */
    method InsertFile(n: NodeId, e: FileMeta)
      requires n in reg.fields && Owns(reg, n) && Fresh(reg, nextId)
      modifies this
      ensures (reg, nextId) == InsertedOne(old(reg), n, e, old(nextId))
      ensures root == old(root) && old(changes) <= changes
    {
      if IsSelfEntry(e) {
        return;
      }
      ghost var r0, next0 := reg, nextId;
      InsertedOneCases(r0, n, e, next0);
      var found := FindChild(n, KeyOf(e));
      match found {
        case Some(i) =>
          var c := reg.fields[n].children[i];
          if e.size != reg.fields[c].meta.size {
            reg := Resized(reg, c, e.size);
          }
        case None =>
          NewChild(n, e);
      }
    }

    /** The insertion loop of updateFileNodeData: insertFile for each entry in order. */
    method InsertEntries(n: NodeId, list: seq<FileMeta>)
      requires n in reg.fields && Owns(reg, n) && Fresh(reg, nextId)
      modifies this
      ensures (reg, nextId) == InsertedAll(old(reg), n, list, old(nextId))
      ensures root == old(root) && old(changes) <= changes
    {
      var i := 0;
      while i < |list|
        invariant 0 <= i <= |list|
        invariant (reg, nextId) == InsertedAll(old(reg), n, list[..i], old(nextId))
        invariant n in reg.fields && Owns(reg, n) && Fresh(reg, nextId)
        invariant root == old(root) && old(changes) <= changes
      {
        assert list[..i + 1][..i] == list[..i];
        InsertFile(n, list[i]);
        i := i + 1;
      }
      assert list[..|list|] == list;
    }

    /** The visibility loop of updateFileNodeData: setNodeVisible on each of `kids`, first to last. */
    method RevealChildren(kids: seq<NodeId>)
      requires Ranked(reg.fields) && forall i :: 0 <= i < |kids| ==> Has(reg, kids[i])
      modifies this
      ensures reg == RevealedAll(old(reg), kids)
      ensures root == old(root) && nextId == old(nextId) && old(changes) <= changes
    {
      var rest := kids;
      while rest != []
        invariant Ranked(reg.fields) && forall i :: 0 <= i < |rest| ==> Has(reg, rest[i])
        invariant RevealedAll(reg, rest) == RevealedAll(old(reg), kids)
        invariant root == old(root) && nextId == old(nextId) && old(changes) <= changes
        decreases |rest|
      {
        ghost var r0 := reg;
        SetNodeVisible(rest[0]);
        SameLinksRanked(r0.fields, reg.fields);
        HasRest(r0, reg, rest);
        rest := rest[1..];
      }
    }

    // -------------------------------------------------------------------
    // Operations on a node of a sound tree
    // -------------------------------------------------------------------

    /**
     * updateFileNodeData: the folder's contents become known; a listing of
     * at most one entry clears the children; otherwise unmatched children
     * are purged, every entry is inserted and every child is made visible;
     * finally the folder's state is recomputed.
     */
    method UpdateFileNodeData(n: NodeId, list: seq<FileMeta>)
      requires Valid() && n in reg.fields
      modifies this
      ensures root == old(root) && old(changes) <= changes
      ensures Valid()
      ensures (reg, nextId) == Updated(old(reg), root, n, list, old(nextId))
    {
      ghost var r, next, c0, rt := reg, nextId, changes, root;
      ghost var r0 := WithInfo(reg, n, reg.fields[n].(contentsKnown := true));
      SetInfo(n, reg.fields[n].(contentsKnown := true));
      if |list| <= 1 {
        UpdatedClearing(r, rt, n, list, next);
        ClearAllChildren(n);
        ghost var r1, c1 := reg, changes;
        RecomputeState(n);
        PrefixTrans(c0, c1, changes);
        assert (reg, nextId) == (Recomputed(Cleared(r0, n), n), next);
      } else {
        UpdatedReconciling(r, rt, n, list, next);
        ReconcileChildren(n, list);
        ghost var r1, c1 := reg, changes;
        RecomputeState(n);
        PrefixTrans(c0, c1, changes);
        assert (reg, nextId) == (Recomputed(r1, n), Reconciled(r0, rt, n, list, next).1);
      }
    }

    /**
     * The middle of updateFileNodeData for a listing of more than one entry:
     * purgeUnmatchedChildren, insertFile for each entry, setNodeVisible on
     * each child.
     */
    method ReconcileChildren(n: NodeId, list: seq<FileMeta>)
      requires Valid() && n in reg.fields
      modifies this
      ensures root == old(root) && old(changes) <= changes
      ensures Valid() && n in reg.fields
      ensures (reg, nextId) == Reconciled(old(reg), root, n, list, old(nextId))
    {
      ReconciledSteps(reg, root, n, list, nextId);
      PurgeUnmatchedChildren(n, list);
      InsertEntries(n, list);
      RevealChildren(reg.fields[n].children);
    }

    /**
     * setFileBuffer: the node holds a copy of `buf` (nothing for a null
     * buffer), is made visible with its ancestors, and its state is
     * recomputed.
     */
    method SetFileBuffer(n: NodeId, buf: Option<Bytes>)
      requires Valid() && n in reg.fields
      modifies this
      ensures root == old(root) && nextId == old(nextId) && old(changes) <= changes
      ensures Valid()
      ensures reg == BufferSet(old(reg), n, buf)
    {
      ghost var r, c0 := reg, changes;
      BufferSetKeepsSound(r, root, n, buf, nextId);
      InfoRanked(r.fields, n, r.fields[n].(buffer := buf));
      SetInfo(n, reg.fields[n].(buffer := buf));
      SetNodeVisible(n);
      ghost var c1 := changes;
      RecomputeState(n);
      PrefixTrans(c0, c1, changes);
    }

    /**
     * setLStask: a null task, or a node that is not a directory, changes
     * nothing; otherwise the node records the task and its state is
     * recomputed.
     */
    method SetLsTask(n: NodeId, task: Option<TaskId>)
      requires Valid() && n in reg.fields
      modifies this
      ensures root == old(root) && nextId == old(nextId) && old(changes) <= changes
      ensures Valid()
      ensures reg == LsTaskSet(old(reg), n, task)
    {
      LsTaskSetKeepsSound(reg, root, n, task, nextId);
      if task.None? || reg.fields[n].meta.kind != Dir {
        return;
      }
      SetInfo(n, reg.fields[n].(lsTask := task));
      RecomputeState(n);
    }

    /** setBuffTask: as setLStask, for a node that is a file. */
    method SetBuffTask(n: NodeId, task: Option<TaskId>)
      requires Valid() && n in reg.fields
      modifies this
      ensures root == old(root) && nextId == old(nextId) && old(changes) <= changes
      ensures Valid()
      ensures reg == BuffTaskSet(old(reg), n, task)
    {
      BuffTaskSetKeepsSound(reg, root, n, task, nextId);
      if task.None? || reg.fields[n].meta.kind != File {
        return;
      }
      SetInfo(n, reg.fields[n].(buffTask := task));
      RecomputeState(n);
    }

    /** deleteFolderContentsData: the folder's contents become unknown and its children are cleared. */
    method DeleteFolderContentsData(n: NodeId)
      requires Valid() && n in reg.fields
      modifies this
      ensures root == old(root) && nextId == old(nextId) && old(changes) <= changes
      ensures Valid()
      ensures reg == FolderContentsDeleted(old(reg), root, n)
    {
      FolderContentsDeletedKeepsSound(reg, root, n, nextId);
      WfOwnsAfterInfo(reg, root, n, reg.fields[n].(contentsKnown := false));
      SetInfo(n, reg.fields[n].(contentsKnown := false));
      ClearAllChildren(n);
    }

    /**
     * deliverBuffData: the download task is dropped; on success the buffer
     * is set to the data (nothing for null data), a node that was not found
     * is sent to Deleting, and on any other failure its state is recomputed.
     */
    method DeliverBuffData(n: NodeId, outcome: RequestOutcome, data: Option<Bytes>)
      requires Valid() && n in reg.fields
      modifies this
      ensures root == old(root) && nextId == old(nextId) && old(changes) <= changes
      ensures Valid()
      ensures reg == BufferDelivered(old(reg), n, outcome, data)
    {
      BufferDeliveredKeepsSound(reg, root, n, outcome, data, nextId);
      var info := reg.fields[n].(buffTask := None);
      WithInfoKeepsSound(reg, root, n, info, nextId);
      SetInfo(n, info);
      match outcome {
        case Good => SetFileBuffer(n, data);
        case FileNotFound => ChangeState(n, Deleting);
        case OtherFailure => RecomputeState(n);
      }
    }

    /**
     * deliverLSdata: the listing task is dropped; on success a listing
     * meant for this node is applied with updateFileNodeData and any other
     * listing only recomputes the state; a node that was not found is sent
     * to Deleting; on any other failure the state is recomputed.
     */
    method DeliverLsData(n: NodeId, outcome: RequestOutcome, list: seq<FileMeta>)
      requires Valid() && n in reg.fields
      modifies this
      ensures root == old(root) && old(changes) <= changes
      ensures Valid()
      ensures (reg, nextId) == ListingDelivered(old(reg), root, n, outcome, list, old(nextId))
    {
      ListingDeliveredSteps(reg, root, n, outcome, list, nextId);
      SetInfo(n, reg.fields[n].(lsTask := None));
      match outcome {
        case Good =>
          var meantForMe := VerifyControlNode(n, list);
          if !meantForMe {
            RecomputeState(n);
          } else {
            UpdateFileNodeData(n, list);
          }
        case FileNotFound => ChangeState(n, Deleting);
        case OtherFailure => RecomputeState(n);
      }
    }
  }
}
