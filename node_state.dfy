/**
 * The per-node lifecycle state and the decision table that derives it
 * from a node's fields (recomputeNodeState / changeNodeState).
 */
module NodeStates {
  import opened Metadata

  datatype NodeState =
    | Init | Error | NonExtant | Deleting
    | FolderSpeculateIdle | FolderSpeculateLoading
    | FolderContentsLoading | FolderContentsReloading
    | FolderKnownContentsNot | FolderContentsLoaded
    | FileSpeculateIdle | FileSpeculateLoading
    | FileBuffLoading | FileBuffReloading
    | FileKnown | FileBuffLoaded

  /** A node known to exist but not yet shown to the user. */
  predicate IsSpeculative(s: NodeState)
  {
    s.FolderSpeculateIdle? || s.FolderSpeculateLoading? || s.FileSpeculateIdle? || s.FileSpeculateLoading?
  }

  /** A state that says a request for this node is in flight. */
  predicate IsBusy(s: NodeState)
  {
    s.FolderSpeculateLoading? || s.FolderContentsLoading? || s.FolderContentsReloading?
    || s.FileSpeculateLoading? || s.FileBuffLoading? || s.FileBuffReloading?
  }

  predicate IsFolderState(s: NodeState)
  {
    s.FolderSpeculateIdle? || s.FolderSpeculateLoading? || s.FolderContentsLoading?
    || s.FolderContentsReloading? || s.FolderKnownContentsNot? || s.FolderContentsLoaded?
  }

  predicate IsFileState(s: NodeState)
  {
    s.FileSpeculateIdle? || s.FileSpeculateLoading? || s.FileBuffLoading?
    || s.FileBuffReloading? || s.FileKnown? || s.FileBuffLoaded?
  }

  /**
   * The state a node that is not being deleted should be in, given its kind,
   * its visibility, whether a listing or download task is pending, whether it
   * has children, whether its folder contents are known and whether it holds
   * a buffer. A directory looks only at its listing task, a file only at its
   * download task.
   */
  function StateFor(kind: FileKind, visible: bool, lsPending: bool, buffPending: bool,
                    hasChildren: bool, contentsKnown: bool, hasBuffer: bool): (r: NodeState)
    ensures r != Deleting && r != Init && r != NonExtant
    ensures r == Error <==> kind == Invalid
    ensures kind == Dir ==> IsFolderState(r)
    ensures kind == File ==> IsFileState(r)
    ensures IsSpeculative(r) <==> kind != Invalid && !visible
    ensures IsBusy(r) <==> (kind == Dir && lsPending) || (kind == File && buffPending)
    ensures r == FolderContentsReloading <==> kind == Dir && visible && lsPending && hasChildren
    ensures r == FolderContentsLoaded <==> kind == Dir && visible && !lsPending && contentsKnown
    ensures r == FileBuffReloading <==> kind == File && visible && buffPending && hasBuffer
    ensures r == FileBuffLoaded <==> kind == File && visible && !buffPending && hasBuffer
  {
    match kind
    case Dir =>
      if !visible then
        (if lsPending then FolderSpeculateLoading else FolderSpeculateIdle)
      else if lsPending then
        (if hasChildren then FolderContentsReloading else FolderContentsLoading)
      else
        (if !contentsKnown then FolderKnownContentsNot else FolderContentsLoaded)
    case File =>
      if !visible then
        (if buffPending then FileSpeculateLoading else FileSpeculateIdle)
      else if buffPending then
        (if hasBuffer then FileBuffReloading else FileBuffLoading)
      else
        (if !hasBuffer then FileKnown else FileBuffLoaded)
    case Invalid => Error
  }

  /**
   * changeNodeState on the state alone: the state reached when `requested`
   * is asked for in state `current`, and whether that fired a change (and
   * with it a projection update and a change notification).
   */
  function Transition(current: NodeState, requested: NodeState): (r: (NodeState, bool))
    ensures r.1 <==> r.0 != current
    ensures current == Deleting ==> r.0 == Deleting && !r.1
    ensures r.0 == Deleting <==> current == Deleting || requested == Deleting
    ensures current != Deleting ==> r.0 == requested
  {
    if current == Deleting || requested == current then (current, false)
    else (requested, true)
  }

  /** Once Deleting, no sequence of requested states leaves it. */
  lemma {:induction false} DeletingAbsorbs(requests: seq<NodeState>)
    ensures Replay(Deleting, requests) == Deleting
  {
    if requests != [] {
      DeletingAbsorbs(requests[..|requests| - 1]);
    }
  }

  /** The state reached from `s` after changeNodeState was asked for each state of `requests` in turn. */
  function Replay(s: NodeState, requests: seq<NodeState>): (r: NodeState)
  {
    if requests == [] then s
    else Transition(Replay(s, requests[..|requests| - 1]), requests[|requests| - 1]).0
  }

  /**
   * Asking for a state that is not Deleting and then for another is the same
   * as asking for the second one directly.
   */
  lemma TransitionCollapses(current: NodeState, first: NodeState, second: NodeState)
    requires first != Deleting
    ensures Transition(Transition(current, first).0, second).0 == Transition(current, second).0
  {
  }
}
