/**
 * The effect on the node registry of the primitive steps every FileTreeNode
 * operation is built from: recomputing a node's rows (recomputeModelItems),
 * detaching a node from its parent's list (the removeAll of the destructor
 * run by deleteLater), changeNodeState and setNodeVisible. The methods of the
 * FileTree class are proved against these functions; the lemmas here show
 * what they keep.
 */
module Effects {
  import opened Wrappers
  import opened Metadata
  import opened NodeStates
  import opened Projection
  import opened Tree
  import opened Reconcile

  /**
   * Rows agree with states: a placeholder only hangs under a row, and a node
   * being deleted, in error or non-existent has no rows at all.
   */
  ghost predicate RowsConsistent(reg: Registry)
  {
    forall n :: n in reg.view ==>
      && (reg.view[n].placeholder.Some? ==> reg.view[n].hasRow)
      && (n in reg.state && ActionFor(reg.state[n]) == Purge ==> reg.view[n] == NoRows)
  }

  /** removeAll: `s` without any occurrence of `x`, the rest in order. */
  function Remove(s: seq<NodeId>, x: NodeId): (r: seq<NodeId>)
    ensures forall y :: y in r <==> y in s && y != x
    ensures x !in s ==> r == s
    ensures |r| <= |s|
  {
    if s == [] then []
    else
      assert s == [s[0]] + s[1..];
      (if s[0] == x then [] else [s[0]]) + Remove(s[1..], x)
  }

  /** Removing a node from a list of children keeps their keys unique. */
  lemma {:induction false} RemoveUnique(fs: Fields, s: seq<NodeId>, x: NodeId)
    requires forall i :: 0 <= i < |s| ==> s[i] in fs
    requires UniqueKeys(Metas(fs, s))
    ensures forall i :: 0 <= i < |Remove(s, x)| ==> Remove(s, x)[i] in fs
    ensures UniqueKeys(Metas(fs, Remove(s, x)))
  {
    assert forall i :: 0 <= i < |Remove(s, x)| ==> Remove(s, x)[i] in s;
    if s != [] {
      UniqueTail(fs, s);
      RemoveUnique(fs, s[1..], x);
      var tail := Remove(s[1..], x);
      if s[0] != x {
        assert forall i :: 0 <= i < |tail| ==> tail[i] in s[1..];
        UniqueCons(fs, s[0], tail);
      }
    }
  }

  /** Whether rows agree with states depends on nothing else. */
  lemma RowsFrame(r0: Registry, r1: Registry)
    requires r1.state == r0.state && r1.view == r0.view
    ensures RowsConsistent(r1) <==> RowsConsistent(r0)
  {
  }

  /**
   * recomputeModelItems: `n`'s rows become the projection of its current
   * state; nothing else changes.
   */
  function WithRows(reg: Registry, n: NodeId): (r: Registry)
    requires Has(reg, n)
    ensures r.fields == reg.fields && r.state == reg.state && r.view.Keys == reg.view.Keys
    ensures r.view[n] == ViewAfter(reg.state[n], reg.view[n], reg.fields[n].meta.kind == Dir,
                                   reg.fields[n].parent.None?, ParentHasRow(reg, n), ChildVisible(reg.fields, n))
  {
    reg.(view := reg.view[n := RowsNow(reg, n)])
  }

  /** The rows recomputed after a state change: the node's own, then its parent's. */
  function RowsAround(reg: Registry, id: NodeId): (r: Registry)
    requires Has(reg, id)
    ensures r.fields == reg.fields && r.state == reg.state && r.view.Keys == reg.view.Keys
    ensures forall m :: m in reg.view && m != id && reg.fields[id].parent != Some(m) ==> r.view[m] == reg.view[m]
    ensures r.view[id] == RowsNow(reg, id)
  {
    var r1 := WithRows(reg, id);
    match reg.fields[id].parent
    case None => r1
    case Some(p) => if Has(r1, p) then WithRows(r1, p) else r1
  }

  /**
   * The destructor's removeAll: `id` no longer appears in its parent's list
   * of children, and nothing else changes.
   */
  function Unlisted(fs: Fields, id: NodeId): (r: Fields)
    requires id in fs
    ensures SameLinks(fs, r)
    ensures forall m :: m in fs && fs[id].parent != Some(m) ==> r[m] == fs[m]
    ensures forall m :: m in fs && fs[id].parent == Some(m) ==>
      r[m] == fs[m].(children := Remove(fs[m].children, id))
  {
    match fs[id].parent
    case None => fs
    case Some(p) =>
      // removeAll of an absent node changes nothing
      if p in fs && id in fs[p].children then fs[p := fs[p].(children := Remove(fs[p].children, id))]
      else fs
  }

  /**
   * changeNodeState(s) on node `id`: nothing happens when the node is being
   * deleted or already in `s`; otherwise the node enters `s`, its rows and
   * then its parent's rows are recomputed, and a node entering Deleting
   * leaves its parent's list of children.
   */
  ghost function StateChanged(reg: Registry, id: NodeId, s: NodeState): (r: Registry)
    requires Has(reg, id)
    ensures !Transition(reg.state[id], s).1 ==> r == reg
    ensures r.state == reg.state[id := Transition(reg.state[id], s).0]
    ensures r.fields == if Transition(reg.state[id], s).1 && s == Deleting then Unlisted(reg.fields, id) else reg.fields
    ensures r.fields.Keys == reg.fields.Keys && r.state.Keys == reg.state.Keys && r.view.Keys == reg.view.Keys
    ensures forall m :: m in reg.view && m != id && reg.fields[id].parent != Some(m) ==> r.view[m] == reg.view[m]
    ensures Transition(reg.state[id], s).1 && ActionFor(s) == Purge ==> r.view[id] == NoRows
  {
    var t := Transition(reg.state[id], s);
    if !t.1 then reg
    else
      var r1 := RowsAround(reg.(state := reg.state[id := t.0]), id);
      if t.0 == Deleting then r1.(fields := Unlisted(r1.fields, id)) else r1
  }

  // ---------------------------------------------------------------------
  // What changeNodeState keeps
  // ---------------------------------------------------------------------

  /** Taking a node off its parent's list keeps the tree shape. */
  lemma UnlistedKeepsShape(fs: Fields, root: NodeId, id: NodeId)
    requires id in fs && Shaped(fs, root)
    ensures Shaped(Unlisted(fs, id), root)
  {
    var r := Unlisted(fs, id);
    SameLinksRanked(fs, r);
    forall n, i | n in r && 0 <= i < |r[n].children|
      ensures r[n].children[i] in r && r[r[n].children[i]].parent == Some(n)
    {
      assert r[n].children[i] in fs[n].children;
    }
    forall n | n in r ensures UniqueKeys(Metas(r, r[n].children)) {
      if fs[id].parent == Some(n) {
        RemoveUnique(fs, fs[n].children, id);
      }
      MetasFrame(fs, r, r[n].children);
    }
  }

  /** changeNodeState keeps the tree well formed. */
  lemma StateChangedKeepsWf(reg: Registry, root: NodeId, id: NodeId, s: NodeState)
    requires id in reg.fields && Wf(reg, root)
    ensures Wf(StateChanged(reg, id, s), root)
  {
    if Transition(reg.state[id], s).1 && s == Deleting {
      UnlistedKeepsShape(reg.fields, root, id);
    }
    StateChangedKeepsLive(reg, id, s);
  }

  /**
   * No listed child is being deleted after changeNodeState either: a node
   * that enters Deleting leaves the only list that held it.
   */
  lemma StateChangedKeepsLive(reg: Registry, id: NodeId, s: NodeState)
    requires Has(reg, id) && ChildrenLinked(reg.fields) && ChildrenLive(reg)
    ensures ChildrenLive(StateChanged(reg, id, s))
  {
    var r := StateChanged(reg, id, s);
    if Transition(reg.state[id], s).1 && s == Deleting {
      forall n, c | n in r.fields && c in r.fields[n].children && c in r.state ensures r.state[c] != Deleting {
        assert c in reg.fields[n].children;
        var i :| 0 <= i < |reg.fields[n].children| && reg.fields[n].children[i] == c;
        assert reg.fields[c].parent == Some(n);
      }
    }
  }

  /**
   * changeNodeState keeps every live node listed by its parent, apart from
   * the nodes `out` already taken off their lists.
   */
  lemma StateChangedKeepsAttached(reg: Registry, root: NodeId, id: NodeId, s: NodeState, out: set<NodeId>)
    requires Has(reg, id) && AttachedExcept(reg, root, out)
    ensures AttachedExcept(StateChanged(reg, id, s), root, out)
  {
  }

  /** changeNodeState keeps rows consistent with states. */
  lemma StateChangedKeepsRows(reg: Registry, id: NodeId, s: NodeState)
    requires Has(reg, id) && RowsConsistent(reg)
    ensures RowsConsistent(StateChanged(reg, id, s))
  {
    var t := Transition(reg.state[id], s);
    if t.1 {
      var r0 := reg.(state := reg.state[id := t.0]);
      var r1 := WithRows(r0, id);
      assert RowsConsistent(r1);
      match r0.fields[id].parent
      case None =>
      case Some(p) =>
        if Has(r1, p) {
          assert RowsConsistent(WithRows(r1, p));
        }
    }
  }

  /** Whether visibility is closed upwards depends only on parents and visibility flags. */
  lemma VisibilityFrame(f0: Fields, f1: Fields, x: Option<NodeId>)
    requires f0.Keys == f1.Keys
    requires forall n :: n in f0 ==> f1[n].visible == f0[n].visible && f1[n].parent == f0[n].parent
    ensures VisibleClosedExcept(f1, x) <==> VisibleClosedExcept(f0, x)
  {
  }

  /**
   * changeNodeState keeps the tree well formed, every live node listed by
   * its parent (apart from the nodes `out` already taken off their lists),
   * and rows consistent with states.
   */
  lemma StateChangedKeepsShape(reg: Registry, root: NodeId, id: NodeId, s: NodeState, out: set<NodeId>)
    requires id in reg.fields && Wf(reg, root) && AttachedExcept(reg, root, out) && RowsConsistent(reg)
    ensures var r := StateChanged(reg, id, s);
      Wf(r, root) && AttachedExcept(r, root, out) && RowsConsistent(r)
  {
    StateChangedKeepsWf(reg, root, id, s);
    StateChangedKeepsAttached(reg, root, id, s, out);
    StateChangedKeepsRows(reg, id, s);
  }

  /** changeNodeState changes no visibility flag and no parent. */
  lemma StateChangedKeepsVisibility(reg: Registry, id: NodeId, s: NodeState, x: Option<NodeId>)
    requires Has(reg, id)
    ensures VisibleClosedExcept(StateChanged(reg, id, s).fields, x) <==> VisibleClosedExcept(reg.fields, x)
  {
    VisibilityFrame(reg.fields, StateChanged(reg, id, s).fields, x);
  }

  /**
   * Two maps of fields that agree on every node's (full path, kind), parent,
   * depth and list of children: they differ at most in sizes and other
   * record fields, visibility, contents-known flags, buffers and tasks.
   */
  ghost predicate SameTree(f0: Fields, f1: Fields)
  {
    && f0.Keys == f1.Keys
    && forall n :: n in f0 ==>
         && KeyOf(f1[n].meta) == KeyOf(f0[n].meta) && f1[n].parent == f0[n].parent
         && f1[n].depth == f0[n].depth && f1[n].children == f0[n].children
  }

  /** Replacing one node's fields by fields with the same key, links and children keeps the tree. */
  lemma SameTreeAt(fs: Fields, n: NodeId, info: NodeInfo)
    requires n in fs && KeyOf(info.meta) == KeyOf(fs[n].meta)
    requires info.parent == fs[n].parent && info.depth == fs[n].depth && info.children == fs[n].children
    ensures SameTree(fs, fs[n := info])
  {
    var f1 := fs[n := info];
    forall m | m in fs
      ensures && KeyOf(f1[m].meta) == KeyOf(fs[m].meta) && f1[m].parent == fs[m].parent
              && f1[m].depth == fs[m].depth && f1[m].children == fs[m].children
    {
      if m == n {
        assert f1[m] == info;
      } else {
        assert f1[m] == fs[m];
      }
    }
  }

  /** Changing anything but keys, links and lists of children keeps every tree invariant. */
  lemma SameTreeKeepsShape(r0: Registry, r1: Registry, root: NodeId, out: set<NodeId>)
    requires SameTree(r0.fields, r1.fields) && r1.state == r0.state && r1.view == r0.view
    requires Wf(r0, root) && AttachedExcept(r0, root, out) && RowsConsistent(r0)
    ensures Wf(r1, root) && AttachedExcept(r1, root, out) && RowsConsistent(r1)
  {
    var f0, f1 := r0.fields, r1.fields;
    assert SameLinks(f0, f1);
    SameLinksRanked(f0, f1);
    forall n | n in f1 ensures UniqueKeys(Metas(f1, f1[n].children)) {
      MetasKeysFrame(f0, f1, f1[n].children);
    }
    RowsFrame(r0, r1);
  }

  // ---------------------------------------------------------------------
  // setNodeVisible
  // ---------------------------------------------------------------------

  /** The registry with `n`'s visibility flag set. */
  function Shown(reg: Registry, n: NodeId): (r: Registry)
    requires n in reg.fields
    ensures SameLinks(reg.fields, r.fields) && r.state == reg.state && r.view == reg.view
    ensures r.fields[n].visible
  {
    reg.(fields := reg.fields[n := reg.fields[n].(visible := true)])
  }

  /**
   * What setNodeVisible on `id` did to registry `r0`, giving `r1`: every
   * node on `id`'s parent chain is now visible and nothing else changed in
   * any node's fields; exactly the nodes of the chain that were hidden had
   * their state recomputed from their new fields; no row off the chain changed.
   */
  ghost predicate MadeVisible(r0: Registry, r1: Registry, id: NodeId)
    requires Ranked(r0.fields) && id in r0.fields
  {
    && r1.fields.Keys == r0.fields.Keys && r1.state.Keys == r0.state.Keys && r1.view.Keys == r0.view.Keys
    && ChainShown(r0, r1, id) && ChainRecomputed(r0, r1, id) && RowsOffChainKept(r0, r1, id)
  }

  /** Exactly the nodes on `id`'s parent chain are now visible; no other field changed. */
  ghost predicate ChainShown(r0: Registry, r1: Registry, id: NodeId)
    requires Ranked(r0.fields) && id in r0.fields
  {
    forall n :: n in r0.fields ==>
      (n in r1.fields &&
       r1.fields[n] == r0.fields[n].(visible := r0.fields[n].visible || IsChildOf(r0.fields, id, Some(n))))
  }

  /** The hidden nodes of the chain had their state recomputed; no other state changed. */
  ghost predicate ChainRecomputed(r0: Registry, r1: Registry, id: NodeId)
    requires Ranked(r0.fields) && id in r0.fields
  {
    forall n :: n in r0.state && n in r0.fields ==>
      (n in r1.state && n in r1.fields &&
       r1.state[n] == if !r0.fields[n].visible && IsChildOf(r0.fields, id, Some(n))
                      then Transition(r0.state[n], StateOf(r1.fields[n])).0
                      else r0.state[n])
  }

  /** No row off the chain changed. */
  ghost predicate RowsOffChainKept(r0: Registry, r1: Registry, id: NodeId)
    requires Ranked(r0.fields) && id in r0.fields
  {
    forall n :: n in r0.view && n in r0.fields && !IsChildOf(r0.fields, id, Some(n)) ==>
      n in r1.view && r1.view[n] == r0.view[n]
  }

  /** Once a node is visible, so is every node on its parent chain. */
  lemma {:induction false} AncestorsVisible(fs: Fields, n: NodeId, a: NodeId)
    requires Ranked(fs) && VisibleClosed(fs) && n in fs && fs[n].visible
    requires IsChildOf(fs, n, Some(a))
    ensures fs[a].visible
    decreases fs[n].depth
  {
    if n != a {
      AncestorsVisible(fs, fs[n].parent.value, a);
    }
  }

  /**
   * setNodeVisible on a visible node changes nothing: its whole parent chain
   * is visible already.
   */
  lemma VisibleNodeIsMadeVisible(reg: Registry, id: NodeId)
    requires Ranked(reg.fields) && VisibleClosedExcept(reg.fields, Some(id)) && id in reg.fields
    requires reg.fields[id].visible
    ensures VisibleClosed(reg.fields)
    ensures MadeVisible(reg, reg, id)
  {
    forall n | n in reg.fields && IsChildOf(reg.fields, id, Some(n)) ensures reg.fields[n].visible {
      AncestorsVisible(reg.fields, id, n);
    }
  }

  /**
   * Marking `id` visible, when only `id` may have had a hidden parent below
   * a visible child, leaves only `id`'s parent with that exception.
   */
  lemma ShownVisibility(r0: Registry, id: NodeId)
    requires id in r0.fields && VisibleClosedExcept(r0.fields, Some(id))
    ensures VisibleClosedExcept(Shown(r0, id).fields, r0.fields[id].parent)
  {
  }

  /** Marking a node visible keeps the tree invariants. */
  lemma ShownKeepsShape(r0: Registry, root: NodeId, id: NodeId)
    requires id in r0.fields && Wf(r0, root) && AttachedExcept(r0, root, {}) && RowsConsistent(r0)
    ensures var r1 := Shown(r0, id);
      Wf(r1, root) && AttachedExcept(r1, root, {}) && RowsConsistent(r1)
  {
    SameTreeAt(r0.fields, id, r0.fields[id].(visible := true));
    SameTreeKeepsShape(r0, Shown(r0, id), root, {});
  }

  /**
   * The recursion of setNodeVisible: marking `id` visible, making its parent
   * visible (giving `r2`), then recomputing `id`'s state makes `id` visible.
   */
  lemma RevealStep(r0: Registry, r2: Registry, r3: Registry, id: NodeId)
    requires Ranked(r0.fields) && Has(r0, id) && !r0.fields[id].visible
    requires var r1 := Shown(r0, id);
      && Ranked(r1.fields)
      && (r0.fields[id].parent.None? ==> r2 == r1)
      && (r0.fields[id].parent.Some? ==>
            r0.fields[id].parent.value in r1.fields && MadeVisible(r1, r2, r0.fields[id].parent.value))
    requires Has(r2, id) && r3 == StateChanged(r2, id, StateOf(r2.fields[id]))
    ensures MadeVisible(r0, r3, id)
  {
    RevealStepFields(r0, r2, r3, id);
    RevealStepStates(r0, r2, r3, id);
    RevealStepRows(r0, r2, r3, id);
  }

  lemma RevealStepFields(r0: Registry, r2: Registry, r3: Registry, id: NodeId)
    requires Ranked(r0.fields) && Has(r0, id) && !r0.fields[id].visible
    requires var r1 := Shown(r0, id);
      && Ranked(r1.fields)
      && (r0.fields[id].parent.None? ==> r2 == r1)
      && (r0.fields[id].parent.Some? ==>
            r0.fields[id].parent.value in r1.fields && MadeVisible(r1, r2, r0.fields[id].parent.value))
    requires Has(r2, id) && r3 == StateChanged(r2, id, StateOf(r2.fields[id]))
    ensures ChainShown(r0, r3, id)
  {
    var r1 := Shown(r0, id);
    forall n | n in r0.fields
      ensures n in r3.fields && r3.fields[n] == r0.fields[n].(visible := r0.fields[n].visible || IsChildOf(r0.fields, id, Some(n)))
    {
      match r0.fields[id].parent
      case None =>
      case Some(p) =>
        IsChildOfSameLinks(r0.fields, r1.fields, p, Some(n));
        if n == id {
          assert !IsChildOf(r1.fields, p, Some(id));
        }
    }
  }

  lemma RevealStepStates(r0: Registry, r2: Registry, r3: Registry, id: NodeId)
    requires Ranked(r0.fields) && Has(r0, id) && !r0.fields[id].visible
    requires var r1 := Shown(r0, id);
      && Ranked(r1.fields)
      && (r0.fields[id].parent.None? ==> r2 == r1)
      && (r0.fields[id].parent.Some? ==>
            r0.fields[id].parent.value in r1.fields && MadeVisible(r1, r2, r0.fields[id].parent.value))
    requires Has(r2, id) && r3 == StateChanged(r2, id, StateOf(r2.fields[id]))
    ensures ChainRecomputed(r0, r3, id)
  {
    var r1 := Shown(r0, id);
    forall n | n in r0.fields
      ensures n in r0.state ==>
        (n in r3.state && n in r3.fields &&
         r3.state[n] == if !r0.fields[n].visible && IsChildOf(r0.fields, id, Some(n))
                        then Transition(r0.state[n], StateOf(r3.fields[n])).0
                        else r0.state[n])
    {
      match r0.fields[id].parent
      case None =>
      case Some(p) =>
        IsChildOfSameLinks(r0.fields, r1.fields, p, Some(n));
        if n == id {
          assert !IsChildOf(r1.fields, p, Some(id));
        }
    }
  }

  lemma RevealStepRows(r0: Registry, r2: Registry, r3: Registry, id: NodeId)
    requires Ranked(r0.fields) && Has(r0, id) && !r0.fields[id].visible
    requires var r1 := Shown(r0, id);
      && Ranked(r1.fields)
      && (r0.fields[id].parent.None? ==> r2 == r1)
      && (r0.fields[id].parent.Some? ==>
            r0.fields[id].parent.value in r1.fields && MadeVisible(r1, r2, r0.fields[id].parent.value))
    requires Has(r2, id) && r3 == StateChanged(r2, id, StateOf(r2.fields[id]))
    ensures RowsOffChainKept(r0, r3, id)
  {
    var r1 := Shown(r0, id);
    forall n | n in r0.fields
      ensures n in r0.view && !IsChildOf(r0.fields, id, Some(n)) ==> n in r3.view && r3.view[n] == r0.view[n]
    {
      match r0.fields[id].parent
      case None =>
      case Some(p) =>
        IsChildOfSameLinks(r0.fields, r1.fields, p, Some(n));
        if n == id {
          assert !IsChildOf(r1.fields, p, Some(id));
        }
    }
  }

  /**
   * setNodeVisible on `id`: a visible node is left alone; a hidden one is
   * marked visible, then its parent is made visible the same way, then its
   * state is recomputed.
   */
  ghost function Revealed(reg: Registry, id: NodeId): (r: Registry)
    requires Ranked(reg.fields) && Has(reg, id)
    ensures SameLinks(reg.fields, r.fields) && r.state.Keys == reg.state.Keys && r.view.Keys == reg.view.Keys
    decreases reg.fields[id].depth
  {
    if reg.fields[id].visible then reg
    else
      var r1 := Shown(reg, id);
      SameLinksRanked(reg.fields, r1.fields);
      var r2 := match reg.fields[id].parent
        case None => r1
        case Some(p) => if Has(r1, p) then Revealed(r1, p) else r1;
      StateChanged(r2, id, StateOf(r2.fields[id]))
  }

  /**
   * After setNodeVisible every node on `id`'s parent chain is visible,
   * exactly the ones that were hidden have had their state recomputed, and
   * no other node changed.
   */
  lemma {:induction false} RevealedMakesVisible(reg: Registry, id: NodeId)
    requires Aligned(reg) && Ranked(reg.fields) && id in reg.fields && VisibleClosedExcept(reg.fields, Some(id))
    ensures MadeVisible(reg, Revealed(reg, id), id)
    decreases reg.fields[id].depth
  {
    if reg.fields[id].visible {
      VisibleNodeIsMadeVisible(reg, id);
    } else {
      var r1 := Shown(reg, id);
      SameLinksRanked(reg.fields, r1.fields);
      ShownVisibility(reg, id);
      match reg.fields[id].parent {
        case None =>
        case Some(p) => RevealedMakesVisible(r1, p);
      }
      var r2 := match reg.fields[id].parent
        case None => r1
        case Some(p) => Revealed(r1, p);
      RevealStep(reg, r2, Revealed(reg, id), id);
    }
  }

  /**
   * setNodeVisible keeps the tree invariants and, where a hidden parent below
   * a visible child could only occur above `id`, closes visibility upwards.
   */
  lemma {:induction false} RevealedKeepsShape(reg: Registry, root: NodeId, id: NodeId)
    requires id in reg.fields && Wf(reg, root) && AttachedExcept(reg, root, {}) && RowsConsistent(reg)
    requires VisibleClosedExcept(reg.fields, Some(id))
    ensures var r := Revealed(reg, id);
      Wf(r, root) && AttachedExcept(r, root, {}) && RowsConsistent(r) && VisibleClosed(r.fields)
    decreases reg.fields[id].depth
  {
    if reg.fields[id].visible {
      VisibleNodeIsMadeVisible(reg, id);
    } else {
      var r1 := Shown(reg, id);
      ShownKeepsShape(reg, root, id);
      ShownVisibility(reg, id);
      match reg.fields[id].parent {
        case None =>
        case Some(p) => RevealedKeepsShape(r1, root, p);
      }
      var r2 := match reg.fields[id].parent
        case None => r1
        case Some(p) => Revealed(r1, p);
      StateChangedKeepsShape(r2, root, id, StateOf(r2.fields[id]), {});
      StateChangedKeepsVisibility(r2, id, StateOf(r2.fields[id]), None);
    }
  }

  /**
   * `f1` differs from `f0` at most in visibility flags, and only by
   * turning them on.
   */
  ghost predicate ShowsMore(f0: Fields, f1: Fields)
  {
    && f1.Keys == f0.Keys
    && forall m :: m in f0 ==> f1[m] == f0[m].(visible := f1[m].visible) && (f0[m].visible ==> f1[m].visible)
  }

  lemma ShowsMoreTrans(f0: Fields, f1: Fields, f2: Fields)
    requires ShowsMore(f0, f1) && ShowsMore(f1, f2)
    ensures ShowsMore(f0, f2)
  {
  }

  /**
   * setNodeVisible turns visibility flags on and changes no other field;
   * afterwards the node is visible.
   */
  lemma {:induction false} RevealedShows(reg: Registry, id: NodeId)
    requires Ranked(reg.fields) && Has(reg, id)
    ensures ShowsMore(reg.fields, Revealed(reg, id).fields)
    ensures Revealed(reg, id).fields[id].visible
    decreases reg.fields[id].depth
  {
    if reg.fields[id].visible {
      assert forall m :: m in reg.fields ==> reg.fields[m] == reg.fields[m].(visible := reg.fields[m].visible);
    } else {
      var r1 := Shown(reg, id);
      SameLinksRanked(reg.fields, r1.fields);
      assert ShowsMore(reg.fields, r1.fields);
      var r2 := match reg.fields[id].parent
        case None => r1
        case Some(p) => if Has(r1, p) then Revealed(r1, p) else r1;
      match reg.fields[id].parent {
        case None =>
        case Some(p) =>
          if Has(r1, p) {
            RevealedShows(r1, p);
            ShowsMoreTrans(reg.fields, r1.fields, r2.fields);
          }
      }
      assert Revealed(reg, id).fields == r2.fields;
    }
  }
}
