/**
 * The presentation-row decisions of recomputeModelItems, updateModelItems and
 * purgeModelItems, over an abstract row state: whether the node has its row
 * group in the presentation model and which placeholder child row, if any,
 * hangs under it.
 */
module Projection {
  import opened Wrappers
  import opened NodeStates

  /** The text of the synthetic child row of a directory with no visible child. */
  datatype Placeholder = EmptyText | LoadingText

  datatype RowView = RowView(hasRow: bool, placeholder: Option<Placeholder>)

  const NoRows: RowView := RowView(false, None)

  /** What recomputeModelItems does for a state. */
  datatype RowAction = Purge | Refresh(contentsLoaded: bool) | Keep

  function ActionFor(s: NodeState): (r: RowAction)
    ensures r == Purge <==> s == Deleting || s == Error || s == NonExtant
    ensures r == Keep <==> IsSpeculative(s) || s == Init
    ensures r.Refresh? ==> (r.contentsLoaded <==> s == FolderContentsLoaded)
  {
    match s
    case Deleting | Error | NonExtant => Purge
    case FileBuffLoaded | FileBuffLoading | FileBuffReloading | FileKnown
      | FolderContentsLoading | FolderContentsReloading | FolderKnownContentsNot => Refresh(false)
    case FolderContentsLoaded => Refresh(true)
    case FileSpeculateIdle | FileSpeculateLoading | FolderSpeculateIdle | FolderSpeculateLoading | Init => Keep
  }

  /**
   * updateModelItems: a node without rows gets them at the top level when it
   * is the root and under its parent's row otherwise, and gets none when the
   * parent has no row; an existing row is refreshed in place. Then the old
   * placeholder goes and a directory none of whose children is visible gets
   * a fresh one, reading "Empty" once its contents are loaded and "Loading"
   * before.
   */
  function Refreshed(v: RowView, contentsLoaded: bool, isDir: bool, isRoot: bool,
                     parentHasRow: bool, childVisible: bool): (r: RowView)
    ensures r.hasRow <==> v.hasRow || isRoot || parentHasRow
    ensures r.placeholder.Some? <==> r.hasRow && isDir && !childVisible
    ensures r.placeholder == Some(EmptyText) <==> r.placeholder.Some? && contentsLoaded
  {
    if !v.hasRow && !isRoot && !parentHasRow then NoRows
    else if isDir && !childVisible then
      RowView(true, Some(if contentsLoaded then EmptyText else LoadingText))
    else RowView(true, None)
  }

  /**
   * The rows of a node after recomputeModelItems ran in state `s`: a removed,
   * failed or non-existent node has no rows; a speculative or initial node
   * keeps its rows untouched; any other node has a row unless it had none and
   * its parent has none either, and then shows exactly one placeholder iff it
   * is a directory none of whose children is visible, reading "Empty" exactly
   * in FolderContentsLoaded.
   */
  function ViewAfter(s: NodeState, v: RowView, isDir: bool, isRoot: bool,
                     parentHasRow: bool, childVisible: bool): (r: RowView)
    ensures s == Deleting || s == Error || s == NonExtant ==> r == NoRows
    ensures IsSpeculative(s) || s == Init ==> r == v
    ensures ActionFor(s).Refresh? ==>
      && (r.hasRow <==> v.hasRow || isRoot || parentHasRow)
      && (r.placeholder.Some? <==> r.hasRow && isDir && !childVisible)
      && (r.placeholder == Some(EmptyText) <==> r.placeholder.Some? && s == FolderContentsLoaded)
  {
    match ActionFor(s)
    case Purge => NoRows
    case Keep => v
    case Refresh(loaded) => Refreshed(v, loaded, isDir, isRoot, parentHasRow, childVisible)
  }
}
