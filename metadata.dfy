/**
 * The metadata record of one remote entry and the identifiers the tree uses.
 * The record mirrors FileMetaData as far as FileTreeNode looks at it.
 */
module Metadata {

  /** Node identifiers stand for FileTreeNode pointers; task identifiers for RemoteDataReply pointers. */
  type NodeId = nat
  type TaskId = nat

  /** Downloaded file contents (a QByteArray). */
  type Bytes = seq<bv8>

  datatype FileKind = File | Dir | Invalid

  /**
   * One entry of a listing or the data of one node. `containingPath` is the
   * path of the directory holding the entry, already split into segments.
   */
  datatype FileMeta = FileMeta(
    name: string,
    fullPath: string,
    kind: FileKind,
    size: int,
    containingPath: seq<string>)

  /** Two records describe the same remote entry iff their full path and kind agree. */
  datatype Key = Key(path: string, kind: FileKind)

  function KeyOf(m: FileMeta): (r: Key)
  {
    Key(m.fullPath, m.kind)
  }

  /** The name of the self-entry a listing reply carries for the listed directory. */
  const SelfEntryName: string := "."

  predicate IsSelfEntry(m: FileMeta)
  {
    m.name == SelfEntryName
  }

  /** Outcome of a remote request (RequestState); every failure other than "not found" is one case. */
  datatype RequestOutcome = Good | FileNotFound | OtherFailure

  /** No two records of `ms` describe the same remote entry. */
  ghost predicate UniqueKeys(ms: seq<FileMeta>)
  {
    forall i, j :: 0 <= i < j < |ms| ==> KeyOf(ms[i]) != KeyOf(ms[j])
  }
}
