/**
 * The node registry that stands for the web of FileTreeNode objects, its
 * well-formedness conditions, and the read-only walks over it: the ancestor
 * test, child lookup by name, path search, and the check that a listing
 * reply is addressed to the node receiving it.
 */
module Tree {
  import opened Wrappers
  import opened Metadata
  import opened NodeStates
  import opened Projection

  /**
   * The fields of one FileTreeNode that the tree logic reads and writes.
   * `depth` is the node's distance from the root; it is what makes walks up
   * the parent chain terminate.
   */
  datatype NodeInfo = NodeInfo(
    meta: FileMeta,
    parent: Option<NodeId>,
    depth: nat,
    children: seq<NodeId>,
    visible: bool,
    contentsKnown: bool,
    buffer: Option<Bytes>,
    lsTask: Option<TaskId>,
    buffTask: Option<TaskId>)

  /** The fields of every node, by identity. */
  type Fields = map<NodeId, NodeInfo>

  /**
   * Every FileTreeNode object, by identity: its fields, its derived state
   * and its presentation rows.
   */
  datatype Registry = Registry(
    fields: Fields,
    state: map<NodeId, NodeState>,
    view: map<NodeId, RowView>)

  /** `n` is a node of the registry. */
  predicate Has(reg: Registry, n: NodeId)
  {
    n in reg.fields && n in reg.state && n in reg.view
  }

  /** The three maps describe the same nodes. */
  ghost predicate Aligned(reg: Registry)
  {
    reg.state.Keys == reg.fields.Keys && reg.view.Keys == reg.fields.Keys
  }

  /** The state recomputeNodeState selects for a node with these fields. */
  function StateOf(info: NodeInfo): (r: NodeState)
  {
    StateFor(info.meta.kind, info.visible, info.lsTask.Some?, info.buffTask.Some?,
             info.children != [], info.contentsKnown, info.buffer.Some?)
  }

  // ---------------------------------------------------------------------
  // Well-formedness
  // ---------------------------------------------------------------------

  /** Every parent exists and lies exactly one level closer to the root. */
  ghost predicate Ranked(fs: Fields)
  {
    forall n :: n in fs && fs[n].parent.Some? ==>
      fs[n].parent.value in fs && fs[fs[n].parent.value].depth + 1 == fs[n].depth
  }

  /** Every listed child exists and points back at its parent. */
  ghost predicate ChildrenLinked(fs: Fields)
  {
    forall n, i :: n in fs && 0 <= i < |fs[n].children| ==>
      fs[n].children[i] in fs && fs[fs[n].children[i]].parent == Some(n)
  }

  /** The metadata records of the nodes `ids`, in order. */
  function Metas(fs: Fields, ids: seq<NodeId>): (ms: seq<FileMeta>)
    requires forall i :: 0 <= i < |ids| ==> ids[i] in fs
    ensures |ms| == |ids|
    ensures forall i :: 0 <= i < |ids| ==> ms[i] == fs[ids[i]].meta
  {
    seq(|ids|, i requires 0 <= i < |ids| => fs[ids[i]].meta)
  }

  /** The records of `ids` read the same in two maps of fields that agree on them. */
  lemma MetasFrame(f0: Fields, f1: Fields, ids: seq<NodeId>)
    requires forall i :: 0 <= i < |ids| ==> ids[i] in f0 && ids[i] in f1 && f0[ids[i]].meta == f1[ids[i]].meta
    ensures Metas(f0, ids) == Metas(f1, ids)
  {
  }

  /** Records that agree on (full path, kind) are unique together. */
  lemma MetasKeysFrame(f0: Fields, f1: Fields, ids: seq<NodeId>)
    requires forall i :: 0 <= i < |ids| ==> ids[i] in f0 && ids[i] in f1 && KeyOf(f0[ids[i]].meta) == KeyOf(f1[ids[i]].meta)
    requires UniqueKeys(Metas(f0, ids))
    ensures UniqueKeys(Metas(f1, ids))
  {
    assert forall i :: 0 <= i < |ids| ==> KeyOf(Metas(f1, ids)[i]) == KeyOf(Metas(f0, ids)[i]);
  }

  /**
   * The tree shape: one parentless root, ranked parents, linked children and,
   * under every node, no two children for the same (full path, kind).
   */
  ghost predicate Shaped(fs: Fields, root: NodeId)
  {
    && root in fs
    && fs[root].parent.None?
    && (forall n :: n in fs && n != root ==> fs[n].parent.Some?)
    && Ranked(fs)
    && ChildrenLinked(fs)
    && (forall n :: n in fs ==> UniqueKeys(Metas(fs, fs[n].children)))
  }

  /** No listed child is being deleted. */
  ghost predicate ChildrenLive(reg: Registry)
  {
    forall n, c :: n in reg.fields && c in reg.fields[n].children && c in reg.state ==> reg.state[c] != Deleting
  }

  /** A well-formed tree whose listed children are all live. */
  ghost predicate Wf(reg: Registry, root: NodeId)
  {
    Aligned(reg) && Shaped(reg.fields, root) && ChildrenLive(reg)
  }

  /**
   * Every node that is neither the root, nor being deleted, nor in `out`
   * appears in its parent's list of children.
   */
  ghost predicate AttachedExcept(reg: Registry, root: NodeId, out: set<NodeId>)
  {
    forall n :: n in reg.fields && n != root && n !in out && n in reg.state && reg.state[n] != Deleting &&
                reg.fields[n].parent.Some? && reg.fields[n].parent.value in reg.fields ==>
      n in reg.fields[reg.fields[n].parent.value].children
  }

  /** A visible node has a visible parent, except possibly when that parent is `x`. */
  ghost predicate VisibleClosedExcept(fs: Fields, x: Option<NodeId>)
  {
    forall n :: n in fs && fs[n].visible && fs[n].parent.Some? && fs[n].parent.value in fs ==>
      fs[fs[n].parent.value].visible || fs[n].parent == x
  }

  ghost predicate VisibleClosed(fs: Fields)
  {
    VisibleClosedExcept(fs, None)
  }

  /** Two maps of fields with the same nodes, parents and depths. */
  ghost predicate SameLinks(f1: Fields, f2: Fields)
  {
    && f1.Keys == f2.Keys
    && forall n :: n in f1 ==> f1[n].parent == f2[n].parent && f1[n].depth == f2[n].depth
  }

  lemma SameLinksTrans(f1: Fields, f2: Fields, f3: Fields)
    requires SameLinks(f1, f2) && SameLinks(f2, f3)
    ensures SameLinks(f1, f3)
  {
  }

  /** Ranking depends only on parents and depths. */
  lemma SameLinksRanked(f1: Fields, f2: Fields)
    requires Ranked(f1) && SameLinks(f1, f2)
    ensures Ranked(f2)
  {
    forall m | m in f2 && f2[m].parent.Some?
      ensures f2[m].parent.value in f2 && f2[f2[m].parent.value].depth + 1 == f2[m].depth
    {
      assert m in f1;
    }
  }

  // ---------------------------------------------------------------------
  // The ancestor test (isChildOf)
  // ---------------------------------------------------------------------

  /**
   * isChildOf: whether `possibleParent` is `n` itself or one of its
   * ancestors; false for a null argument.
   */
  function IsChildOf(fs: Fields, n: NodeId, possibleParent: Option<NodeId>): (r: bool)
    requires Ranked(fs) && n in fs
    ensures possibleParent == Some(n) ==> r
    ensures possibleParent.None? ==> !r
    ensures r ==> possibleParent.value in fs &&
                  fs[possibleParent.value].depth <= fs[n].depth
    ensures r && fs[possibleParent.value].depth == fs[n].depth ==> possibleParent.value == n
    decreases fs[n].depth
  {
    if possibleParent.None? then false
    else if n == possibleParent.value then true
    else match fs[n].parent
      case None => false
      case Some(p) => IsChildOf(fs, p, possibleParent)
  }

  /** The node `k` steps up the parent chain from `n`, if the chain is that long. */
  function Up(fs: Fields, n: NodeId, k: nat): (r: Option<NodeId>)
    requires Ranked(fs) && n in fs
    decreases k
  {
    if k == 0 then Some(n)
    else match fs[n].parent
      case None => None
      case Some(p) => Up(fs, p, k - 1)
  }

  /**
   * isChildOf holds exactly for the nodes on the parent chain: `a` is an
   * ancestor-or-self of `n` iff walking up from `n` by the difference of
   * their depths reaches `a`.
   */
  lemma {:induction false} IsChildOfIffOnChain(fs: Fields, n: NodeId, a: NodeId)
    requires Ranked(fs) && n in fs && a in fs
    ensures IsChildOf(fs, n, Some(a)) <==>
      fs[a].depth <= fs[n].depth &&
      Up(fs, n, fs[n].depth - fs[a].depth) == Some(a)
    decreases fs[n].depth
  {
    if n != a {
      match fs[n].parent
      case None =>
      case Some(p) =>
        IsChildOfIffOnChain(fs, p, a);
    }
  }

  /** The ancestor relation is transitive. */
  lemma {:induction false} IsChildOfTransitive(fs: Fields, a: NodeId, b: NodeId, c: NodeId)
    requires Ranked(fs) && a in fs && b in fs
    requires IsChildOf(fs, a, Some(b)) && IsChildOf(fs, b, Some(c))
    ensures IsChildOf(fs, a, Some(c))
    decreases fs[a].depth
  {
    if a != b {
      IsChildOfTransitive(fs, fs[a].parent.value, b, c);
    }
  }

  /** In a well-formed tree the root is an ancestor of every node. */
  lemma {:induction false} RootIsAncestorOfAll(fs: Fields, root: NodeId, n: NodeId)
    requires Shaped(fs, root) && n in fs
    ensures IsChildOf(fs, n, Some(root))
    decreases fs[n].depth
  {
    if n != root {
      RootIsAncestorOfAll(fs, root, fs[n].parent.value);
    }
  }

  /** The ancestor test depends only on parents and depths. */
  lemma {:induction false} IsChildOfSameLinks(f1: Fields, f2: Fields, n: NodeId, a: Option<NodeId>)
    requires Ranked(f1) && SameLinks(f1, f2) && n in f1
    ensures Ranked(f2)
    ensures IsChildOf(f1, n, a) == IsChildOf(f2, n, a)
    decreases f1[n].depth
  {
    SameLinksRanked(f1, f2);
    if a.Some? && n != a.value && f1[n].parent.Some? {
      IsChildOfSameLinks(f1, f2, f1[n].parent.value, a);
    }
  }

  // ---------------------------------------------------------------------
  // Lookup by name and by path
  // ---------------------------------------------------------------------

  /** The node `c` carries file name `name` and is not of the INVALID kind. */
  predicate Named(fs: Fields, c: NodeId, name: string)
    requires c in fs
  {
    fs[c].meta.name == name && fs[c].meta.kind != Invalid
  }

  /** getChildNodeWithName: the first of `kids` with that name whose kind is not INVALID. */
  function ChildWithName(fs: Fields, kids: seq<NodeId>, name: string): (r: Option<NodeId>)
    requires forall i :: 0 <= i < |kids| ==> kids[i] in fs
    ensures r.None? <==> forall i :: 0 <= i < |kids| ==> !Named(fs, kids[i], name)
    ensures r.Some? ==> exists i :: 0 <= i < |kids| && kids[i] == r.value && Named(fs, kids[i], name) &&
                                    forall j :: 0 <= j < i ==> !Named(fs, kids[j], name)
  {
    if kids == [] then None
    else if Named(fs, kids[0], name) then Some(kids[0])
    else
      var r := ChildWithName(fs, kids[1..], name);
      assert r.Some? ==> exists i :: 1 <= i < |kids| && kids[i] == r.value && Named(fs, kids[i], name) &&
                                     forall j :: 0 <= j < i ==> !Named(fs, kids[j], name) by {
        if r.Some? {
          var i :| 0 <= i < |kids[1..]| && kids[1..][i] == r.value && Named(fs, kids[1..][i], name) &&
                   forall j :: 0 <= j < i ==> !Named(fs, kids[1..][j], name);
          assert kids[i + 1] == r.value;
          assert forall j :: 1 <= j < i + 1 ==> kids[j] == kids[1..][j - 1];
        }
      }
      assert r.None? ==> forall i :: 0 <= i < |kids| ==> !Named(fs, kids[i], name) by {
        if r.None? {
          assert forall i :: 1 <= i < |kids| ==> kids[i] == kids[1..][i - 1];
        }
      }
      r
  }

  /**
   * pathSearchHelperFromAnyNode: follow `parts` down from `n`, one child per
   * segment. On a missing segment the exact search (stopEarly false) yields
   * nothing and the closest search yields the deepest node reached.
   */
  function SearchFrom(fs: Fields, n: NodeId, parts: seq<string>, stopEarly: bool): (r: Option<NodeId>)
    requires ChildrenLinked(fs) && n in fs
    ensures r.Some? ==> r.value in fs
    ensures stopEarly ==> r.Some?
    decreases |parts|
  {
    if parts == [] then Some(n)
    else match ChildWithName(fs, fs[n].children, parts[0])
      case None => if stopEarly then Some(n) else None
      case Some(c) => SearchFrom(fs, c, parts[1..], stopEarly)
  }

  /**
   * pathSearchHelper: a search by absolute path, only answered by the root
   * and only when the first segment is the root's own name.
   */
  function PathSearch(fs: Fields, n: NodeId, parts: seq<string>, stopEarly: bool): (r: Option<NodeId>)
    requires ChildrenLinked(fs) && n in fs
    ensures r.Some? ==> fs[n].parent.None? && parts != [] && parts[0] == fs[n].meta.name
    ensures r.Some? ==> r.value in fs
  {
    if fs[n].parent.Some? then None
    else if parts == [] then None
    else if parts[0] != fs[n].meta.name then None
    else SearchFrom(fs, n, parts[1..], stopEarly)
  }

  /** The names on the way from the root down to `n`, `n`'s own name last. */
  function PathOf(fs: Fields, n: NodeId): (r: seq<string>)
    requires Ranked(fs) && n in fs
    decreases fs[n].depth
  {
    match fs[n].parent
    case None => [fs[n].meta.name]
    case Some(p) => PathOf(fs, p) + [fs[n].meta.name]
  }

  /**
   * What the exact search finds lies below the start node, exactly one level
   * per segment, and its path is the start node's path followed by the segments.
   */
  lemma {:induction false} SearchFromFindsDescendant(fs: Fields, n: NodeId, parts: seq<string>, m: NodeId)
    requires Ranked(fs) && ChildrenLinked(fs) && n in fs
    requires SearchFrom(fs, n, parts, false) == Some(m)
    ensures m in fs && IsChildOf(fs, m, Some(n))
    ensures fs[m].depth == fs[n].depth + |parts|
    ensures PathOf(fs, m) == PathOf(fs, n) + parts
    decreases |parts|
  {
    if parts != [] {
      var c := ChildWithName(fs, fs[n].children, parts[0]).value;
      assert fs[c].parent == Some(n);
      SearchFromFindsDescendant(fs, c, parts[1..], m);
      IsChildOfTransitive(fs, m, c, n);
      assert parts == [parts[0]] + parts[1..];
    }
  }

  /** A node found by an absolute exact search has exactly the searched path. */
  lemma PathSearchFindsPath(fs: Fields, n: NodeId, parts: seq<string>, m: NodeId)
    requires Ranked(fs) && ChildrenLinked(fs) && n in fs
    requires PathSearch(fs, n, parts, false) == Some(m)
    ensures PathOf(fs, m) == parts
  {
    SearchFromFindsDescendant(fs, n, parts[1..], m);
    assert parts == [parts[0]] + parts[1..];
  }

  /** Whenever the exact search succeeds, the closest search finds the same node. */
  lemma {:induction false} ExactSearchAgreesWithClosest(fs: Fields, n: NodeId, parts: seq<string>)
    requires ChildrenLinked(fs) && n in fs
    requires SearchFrom(fs, n, parts, false).Some?
    ensures SearchFrom(fs, n, parts, true) == SearchFrom(fs, n, parts, false)
    decreases |parts|
  {
    if parts != [] {
      var c := ChildWithName(fs, fs[n].children, parts[0]).value;
      ExactSearchAgreesWithClosest(fs, c, parts[1..]);
    }
  }

  /**
   * The closest search yields what the exact search yields for the longest
   * prefix of the path that resolves: the prefix of length k resolves to that
   * node and, unless k is the whole path, the prefix one segment longer does not.
   */
  lemma {:induction false} ClosestIsDeepestResolvedPrefix(fs: Fields, n: NodeId, parts: seq<string>)
    requires ChildrenLinked(fs) && n in fs
    ensures exists k ::
      && 0 <= k <= |parts|
      && SearchFrom(fs, n, parts[..k], false) == SearchFrom(fs, n, parts, true)
      && (k < |parts| ==> SearchFrom(fs, n, parts[..k + 1], false).None?)
    decreases |parts|
  {
    if parts == [] {
      assert parts[..0] == [];
    } else {
      assert parts[..1][1..] == [];
      match ChildWithName(fs, fs[n].children, parts[0])
      case None =>
        assert parts[..0] == [];
        assert SearchFrom(fs, n, parts[..1], false).None?;
      case Some(c) =>
        ClosestIsDeepestResolvedPrefix(fs, c, parts[1..]);
        var k :| 0 <= k <= |parts[1..]| &&
          SearchFrom(fs, c, parts[1..][..k], false) == SearchFrom(fs, c, parts[1..], true) &&
          (k < |parts[1..]| ==> SearchFrom(fs, c, parts[1..][..k + 1], false).None?);
        assert parts[..k + 1][0] == parts[0] && parts[..k + 1][1..] == parts[1..][..k];
        if k < |parts[1..]| {
          assert parts[..k + 2][0] == parts[0] && parts[..k + 2][1..] == parts[1..][..k + 1];
        }
    }
  }

  // ---------------------------------------------------------------------
  // Validating a listing reply (getControlAddress, verifyControlNode)
  // ---------------------------------------------------------------------

  /**
   * getControlAddress: the containing path of the first "." entry of a
   * listing, or the empty path when there is none.
   */
  function ControlAddress(list: seq<FileMeta>): (r: seq<string>)
    ensures (forall i :: 0 <= i < |list| ==> !IsSelfEntry(list[i])) ==> r == []
    ensures (exists i :: 0 <= i < |list| && IsSelfEntry(list[i])) ==>
      exists i :: 0 <= i < |list| && IsSelfEntry(list[i]) && r == list[i].containingPath &&
                  forall j :: 0 <= j < i ==> !IsSelfEntry(list[j])
  {
    if list == [] then []
    else if IsSelfEntry(list[0]) then list[0].containingPath
    else
      var r := ControlAddress(list[1..]);
      assert forall i :: 1 <= i < |list| ==> list[i] == list[1..][i - 1];
      assert (exists i :: 0 <= i < |list| && IsSelfEntry(list[i])) ==>
        exists i :: 0 <= i < |list[1..]| && IsSelfEntry(list[1..][i]);
      assert (exists i :: 0 <= i < |list[1..]| && IsSelfEntry(list[1..][i]) && r == list[1..][i].containingPath &&
                         forall j :: 0 <= j < i ==> !IsSelfEntry(list[1..][j])) ==>
        exists i :: 0 <= i < |list| && IsSelfEntry(list[i]) && r == list[i].containingPath &&
                    forall j :: 0 <= j < i ==> !IsSelfEntry(list[j]) by {
        if i :| 0 <= i < |list[1..]| && IsSelfEntry(list[1..][i]) && r == list[1..][i].containingPath &&
                forall j :: 0 <= j < i ==> !IsSelfEntry(list[1..][j]) {
          assert IsSelfEntry(list[i + 1]) && r == list[i + 1].containingPath;
        }
      }
      r
  }

  /** The top of `n`'s parent chain. */
  function RootOf(fs: Fields, n: NodeId): (r: NodeId)
    requires Ranked(fs) && n in fs
    ensures r in fs && fs[r].parent.None? && IsChildOf(fs, n, Some(r))
    decreases fs[n].depth
  {
    match fs[n].parent
    case None => n
    case Some(p) => RootOf(fs, p)
  }

  /**
   * verifyControlNode: a listing is meant for `n` when it has a "." entry
   * whose containing path, searched exactly from the root, leads to `n`.
   */
  function VerifyControl(fs: Fields, n: NodeId, list: seq<FileMeta>): (r: bool)
    requires Ranked(fs) && ChildrenLinked(fs) && n in fs
  {
    var address := ControlAddress(list);
    if address == [] then false
    else PathSearch(fs, RootOf(fs, n), address, false) == Some(n)
  }

  /** Two maps of fields that agree on every node's record, parent, depth and list of children. */
  ghost predicate SameNav(f0: Fields, f1: Fields)
  {
    && f1.Keys == f0.Keys
    && forall m :: m in f0 ==>
         f1[m].meta == f0[m].meta && f1[m].parent == f0[m].parent && f1[m].depth == f0[m].depth &&
         f1[m].children == f0[m].children
  }

  lemma {:induction false} ChildWithNameFrame(f0: Fields, f1: Fields, kids: seq<NodeId>, name: string)
    requires SameNav(f0, f1) && forall i :: 0 <= i < |kids| ==> kids[i] in f0
    ensures ChildWithName(f1, kids, name) == ChildWithName(f0, kids, name)
    decreases |kids|
  {
    if kids != [] {
      ChildWithNameFrame(f0, f1, kids[1..], name);
    }
  }

  lemma {:induction false} SearchFromFrame(f0: Fields, f1: Fields, n: NodeId, parts: seq<string>, stopEarly: bool)
    requires SameNav(f0, f1) && ChildrenLinked(f0) && ChildrenLinked(f1) && n in f0
    ensures SearchFrom(f1, n, parts, stopEarly) == SearchFrom(f0, n, parts, stopEarly)
    decreases |parts|
  {
    if parts != [] {
      ChildWithNameFrame(f0, f1, f0[n].children, parts[0]);
      match ChildWithName(f0, f0[n].children, parts[0]) {
        case None =>
        case Some(c) => SearchFromFrame(f0, f1, c, parts[1..], stopEarly);
      }
    }
  }

  lemma {:induction false} RootOfFrame(f0: Fields, f1: Fields, n: NodeId)
    requires SameNav(f0, f1) && Ranked(f0) && Ranked(f1) && n in f0
    ensures RootOf(f1, n) == RootOf(f0, n)
    decreases f0[n].depth
  {
    match f0[n].parent {
      case None =>
      case Some(p) => RootOfFrame(f0, f1, p);
    }
  }

  /**
   * Whether a listing is accepted depends only on the nodes' records,
   * parents and lists of children, not on their visibility, buffers or
   * tasks.
   */
  lemma VerifyControlFrame(f0: Fields, f1: Fields, n: NodeId, list: seq<FileMeta>)
    requires SameNav(f0, f1) && Ranked(f0) && ChildrenLinked(f0) && n in f0
    ensures Ranked(f1) && ChildrenLinked(f1)
    ensures VerifyControl(f1, n, list) == VerifyControl(f0, n, list)
  {
    assert SameLinks(f0, f1);
    SameLinksRanked(f0, f1);
    RootOfFrame(f0, f1, n);
    var address := ControlAddress(list);
    if address != [] && f0[RootOf(f0, n)].parent.None? && address[0] == f0[RootOf(f0, n)].meta.name {
      SearchFromFrame(f0, f1, RootOf(f0, n), address[1..], false);
    }
  }

  /** The first "." entry of an accepted listing has the path of `n` as its containing path. */
  lemma AcceptedListingNamesNode(fs: Fields, n: NodeId, list: seq<FileMeta>)
    requires Ranked(fs) && ChildrenLinked(fs) && n in fs
    requires VerifyControl(fs, n, list)
    ensures exists i :: 0 <= i < |list| && IsSelfEntry(list[i]) && list[i].containingPath == PathOf(fs, n) &&
                        forall j :: 0 <= j < i ==> !IsSelfEntry(list[j])
  {
    PathSearchFindsPath(fs, RootOf(fs, n), ControlAddress(list), n);
  }

  /** A node reached by an exact search of at least one step is some node's listed child. */
  lemma {:induction false} SearchStepIsListedChild(fs: Fields, n: NodeId, parts: seq<string>)
    requires ChildrenLinked(fs) && n in fs && parts != []
    requires SearchFrom(fs, n, parts, false).Some?
    ensures exists q, i :: q in fs && 0 <= i < |fs[q].children| &&
                           fs[q].children[i] == SearchFrom(fs, n, parts, false).value
    decreases |parts|
  {
    var c := ChildWithName(fs, fs[n].children, parts[0]).value;
    if parts[1..] != [] {
      SearchStepIsListedChild(fs, c, parts[1..]);
    }
  }

  /**
   * A node below the root that is being deleted no longer accepts listings:
   * a late reply addressed to it is rejected.
   */
  lemma DeletingNodeRejectsListing(reg: Registry, root: NodeId, n: NodeId, list: seq<FileMeta>)
    requires Wf(reg, root) && n in reg.fields && n != root && reg.state[n] == Deleting
    ensures !VerifyControl(reg.fields, n, list)
  {
    var fs := reg.fields;
    var address := ControlAddress(list);
    if address != [] && PathSearch(fs, RootOf(fs, n), address, false) == Some(n) {
      assert RootOf(fs, n) == root;
      assert address[1..] != [];
      SearchStepIsListedChild(fs, root, address[1..]);
    }
  }

  // ---------------------------------------------------------------------
  // The projection as seen from the registry
  // ---------------------------------------------------------------------

  /** Whether some listed child of `n` is visible (the loop in updateModelItems). */
  predicate ChildVisible(fs: Fields, n: NodeId)
    requires n in fs
  {
    exists i :: 0 <= i < |fs[n].children| && fs[n].children[i] in fs && fs[fs[n].children[i]].visible
  }

  /** Whether `n`'s parent has a row to hang `n`'s row under. */
  predicate ParentHasRow(reg: Registry, n: NodeId)
    requires n in reg.fields
  {
    match reg.fields[n].parent
    case None => false
    case Some(p) => p in reg.view && reg.view[p].hasRow
  }

  /** The rows recomputeModelItems gives `n` in the registry `reg`. */
  function RowsNow(reg: Registry, n: NodeId): (r: RowView)
    requires Has(reg, n)
  {
    var info := reg.fields[n];
    ViewAfter(reg.state[n], reg.view[n], info.meta.kind == Dir, info.parent.None?,
              ParentHasRow(reg, n), ChildVisible(reg.fields, n))
  }
}
