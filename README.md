# FileTreeNode, modelled in Dafny

This project models `FileTreeNode`, the node class of the remote file tree
(`remoteFiles/filetreenode.cpp`). Each node mirrors one remote file or
folder. It holds that entry's metadata record, its visibility flag, a
"folder contents known" flag, an optional downloaded buffer, and optional
pending listing (`ls`) and download tasks. It also holds its parent pointer,
its list of children and the rows it contributes to the Qt presentation
model. A node derives a lifecycle state from these fields. It reconciles its
children with each listing reply the remote server sends. It tells the file
operator about every state change.

The web of `FileTreeNode` objects is modelled as a registry of three maps
keyed by node identity (`Tree.Registry`):

- the node's fields (`Tree.NodeInfo`);
- its lifecycle state (`NodeStates.NodeState`);
- its presentation rows, abstracted to "has a row group" plus an optional
  "Empty"/"Loading" placeholder (`Projection.RowView`).

The class `FileTreeNodes.FileTree` holds this registry, the next unused
identity and the log of records passed to the file operator's
`fileNodesChange`. Every member function of `FileTreeNode` that changes
state is a method of `FileTree` that takes the node's identity and updates
the registry in place. Each such method is proved to compute a
specification function on registries:

- the primitive steps `StateChanged`, `Revealed` and `WithRows` are in
  `Effects`;
- the composite operations `Cleared`, `Purged`, `InsertedOne` and
  `InsertedAll` are in `Operations`;
- `Updated` is in `Updates`;
- the task setters and the two reply handlers are in `Deliveries`.

Lemmas about those functions state what the source promises. Every public
operation keeps the tree sound (`Updates.Sound`):

- one root;
- parents ranked by depth;
- children linked back to their parent;
- no two siblings for the same (full path, kind);
- no listed child being deleted;
- every live node listed by its parent;
- rows consistent with states;
- visibility closed upwards.

Beyond soundness, the lemmas state:

- the state table, and the absorbing Deleting state;
- the ancestor test and path search;
- the acceptance test for listing replies;
- that reconciling a folder with a listing leaves exactly the listed
  children, in a fixed order, with the listed sizes (taking the size write
  in `insertFile` to reach the child's record; see "Left out"), and that
  doing it twice changes nothing more;
- the effect of each reply.

Reconciliation on metadata records is in `Reconcile`.

## Model

| member | source | states |
|---|---|---|
| NodeStates.StateFor | remoteFiles/filetreenode.cpp:325-394 | recomputeNodeState's table: never Deleting/Init/NonExtant; Error iff the kind is INVALID; folders get folder states and files file states; speculative iff hidden; busy iff the kind's own task is pending; Reloading iff visible, pending and holding children (folder) or a buffer (file); Loaded iff visible, no task and contents known (folder) or a buffer held (file) |
| NodeStates.Transition | remoteFiles/filetreenode.cpp:396-400 | changeNodeState on the state: a change fires iff the state differs; a Deleting node never changes; the result is Deleting iff either side is; otherwise the requested state is taken |
| NodeStates.DeletingAbsorbs | remoteFiles/filetreenode.cpp:398 | no sequence of requests leads out of Deleting |
| NodeStates.TransitionCollapses | remoteFiles/filetreenode.cpp:396-400 | two requests, the first not Deleting, end where the second alone would |
| Projection.ActionFor | remoteFiles/filetreenode.cpp:412-439 | recomputeModelItems: purge exactly for Deleting/Error/NonExtant; leave rows alone exactly for speculative states and Init; otherwise refresh, with "contents loaded" iff FolderContentsLoaded |
| Projection.Refreshed | remoteFiles/filetreenode.cpp:465-536 | updateModelItems: a row exists afterwards iff one existed, the node is the root, or the parent has a row; a placeholder iff there is a row, the node is a directory and no child is visible; it reads "Empty" iff the contents are loaded |
| Projection.ViewAfter | remoteFiles/filetreenode.cpp:412-536 | the rows after recomputeModelItems: no rows for purged states, the old rows for speculative states and Init, the updateModelItems rows otherwise |
| Tree.IsChildOf | remoteFiles/filetreenode.cpp:231-245 | isChildOf: true for the node itself, false for null; a positive answer is a node at most as deep, and one equally deep only if it is the node itself |
| Tree.IsChildOfIffOnChain | remoteFiles/filetreenode.cpp:231-245 | isChildOf holds exactly for the nodes on the parent chain |
| Tree.IsChildOfTransitive | remoteFiles/filetreenode.cpp:231-245 | the ancestor relation is transitive |
| Tree.RootIsAncestorOfAll | remoteFiles/filetreenode.cpp:231-245 | in a well-formed tree the root is an ancestor of every node |
| Tree.ChildWithName | remoteFiles/filetreenode.cpp:218-229 | getChildNodeWithName: null iff no child has that name and a kind other than INVALID; otherwise the first such child |
| Tree.SearchFrom | remoteFiles/filetreenode.cpp:562-581 | pathSearchHelperFromAnyNode: the result is a node; the closest search (stopEarly) always yields one |
| Tree.PathSearch | remoteFiles/filetreenode.cpp:544-560 | pathSearchHelper: only a root answers, and only for a path whose first segment is its own name |
| Tree.SearchFromFindsDescendant | remoteFiles/filetreenode.cpp:562-581 | an exact search finds a descendant exactly one level per segment down, whose path is the start's path followed by the segments |
| Tree.PathSearchFindsPath | remoteFiles/filetreenode.cpp:123-126 | getNodeWithName finds a node whose path is exactly the searched path |
| Tree.ExactSearchAgreesWithClosest | remoteFiles/filetreenode.cpp:123-131 | whenever getNodeWithName finds a node, getClosestNodeWithName finds the same one |
| Tree.ClosestIsDeepestResolvedPrefix | remoteFiles/filetreenode.cpp:562-581 | the closest search yields the node of the longest prefix of the path that resolves |
| Tree.ControlAddress | remoteFiles/filetreenode.cpp:598-609 | getControlAddress: empty when there is no "." entry; otherwise the containing path of the first "." entry |
| Tree.RootOf | remoteFiles/filetreenode.cpp:588-592 | the loop of verifyControlNode ends at a parentless ancestor |
| Tree.StateOf | remoteFiles/filetreenode.cpp:325-394 | the state recomputeNodeState selects, read from the node's kind, visibility, tasks, children, contents-known flag and buffer |
| Tree.VerifyControl | remoteFiles/filetreenode.cpp:583-596 | verifyControlNode: a listing is accepted iff it has a "." entry and the first one's containing path, searched exactly from the root, leads to the node |
| Tree.ChildVisible | remoteFiles/filetreenode.cpp:519-522 | whether some listed child of the node is visible |
| Tree.ParentHasRow | remoteFiles/filetreenode.cpp:489-495 | whether the node's parent has a row group to append the node's row to |
| Tree.VerifyControlFrame | remoteFiles/filetreenode.cpp:583-596 | whether a listing is accepted depends only on records, parents and lists of children |
| Tree.AcceptedListingNamesNode | remoteFiles/filetreenode.cpp:583-596 | an accepted listing has a "." entry; the first one's containing path is the node's own path |
| Tree.DeletingNodeRejectsListing | remoteFiles/filetreenode.cpp:583-596 | a non-root node being deleted rejects every listing, since it is off its parent's list |
| Reconcile.FindKey | remoteFiles/filetreenode.cpp:651-662 | the matching loop of insertFile: the first child with the entry's (full path, kind), or none iff no child has it |
| Reconcile.Listed | remoteFiles/filetreenode.cpp:681-691 | a non-"." entry of the listing has the child's (full path, kind) |
| Reconcile.InsertOne | remoteFiles/filetreenode.cpp:647-665 | insertFile on the records: a "." entry is skipped; an entry matching a child on (full path, kind) gives it its size; any other entry is appended |
| Reconcile.InsertAll | remoteFiles/filetreenode.cpp:625-628 | insertFile on the records for each entry in order |
| Reconcile.LastSize | remoteFiles/filetreenode.cpp:625-628 | a key gets a size from the listing iff a non-"." entry lists it |
| Reconcile.ListedIffListedKeys | remoteFiles/filetreenode.cpp:681-691 | the matching loop of purgeUnmatchedChildren finds a key iff it is among the keys of the non-"." entries |
| Reconcile.InsertOneShape | remoteFiles/filetreenode.cpp:647-665 | insertFile on records: the existing records stay in place and at most their size changes; a record is appended iff the entry is not "." and its key is new, and then it is the entry; the keys grow by the entry's key |
| Reconcile.InsertAllShape | remoteFiles/filetreenode.cpp:625-628 | inserting a listing keeps existing records in place (only sizes change, and only for listed ones) and ends with the old keys plus the listed keys |
| Reconcile.InsertAllUnique | remoteFiles/filetreenode.cpp:625-628 | inserting a listing never creates two records for one remote entry |
| Reconcile.InsertAllSizes | remoteFiles/filetreenode.cpp:656-659 | after inserting a listing every listed record carries the size of the last entry that lists it |
| Reconcile.InsertAllKnownAddsNothing | remoteFiles/filetreenode.cpp:651-664 | a listing whose keys are all present adds no record |
| Reconcile.InsertAllIdempotent | remoteFiles/filetreenode.cpp:625-628 | inserting the same listing twice is inserting it once |
| Reconcile.Retain | remoteFiles/filetreenode.cpp:673-706 | the children purgeUnmatchedChildren keeps: at most the old ones, and exactly those a non-"." entry matches on (full path, kind) |
| Reconcile.RetainAppend | remoteFiles/filetreenode.cpp:673-706 | retaining distributes over concatenation of children lists |
| Reconcile.RetainSnoc | remoteFiles/filetreenode.cpp:673-701 | the loop's last-first order: retaining is retaining the front, then keeping the last child if matched |
| Reconcile.RetainUnique | remoteFiles/filetreenode.cpp:667-707 | the kept children inherit unique keys |
| Reconcile.RetainKeys | remoteFiles/filetreenode.cpp:667-707 | the kept keys are the old keys that the listing also has |
| Reconcile.ReconcileConverges | remoteFiles/filetreenode.cpp:623-628 | after purging and inserting, the children's keys are exactly the listing's non-"." keys, whatever the children were |
| Reconcile.ReconcileTwiceChangesNothing | remoteFiles/filetreenode.cpp:623-628 | reconciling again with the same listing keeps every child and changes no record |
| Reconcile.RetainAll | remoteFiles/filetreenode.cpp:667-707 | when every child is listed, none is purged |
| Effects.Remove | remoteFiles/filetreenode.cpp:95-99 | removeAll: exactly the other nodes remain, and nothing changes when the node is absent |
| Effects.RemoveUnique | remoteFiles/filetreenode.cpp:95-99 | removing a child keeps sibling keys unique |
| Effects.WithRows | remoteFiles/filetreenode.cpp:412-439 | recomputeModelItems: only the node's rows change, to the projection of its state |
| Effects.RowsAround | remoteFiles/filetreenode.cpp:407-408 | the two recomputeModelItems calls of changeNodeState: only the node's and its parent's rows change, the node's to its current projection |
| Effects.Unlisted | remoteFiles/filetreenode.cpp:95-99 | the destructor's removeAll: the node leaves its parent's list; no other field and no link changes |
| Effects.StateChanged | remoteFiles/filetreenode.cpp:396-410 | changeNodeState: no change when it does not fire; otherwise the new state, the node unlisted when it enters Deleting, only its own and its parent's rows touched, no rows when the new state purges |
| Effects.UnlistedKeepsShape | remoteFiles/filetreenode.cpp:95-99 | unlisting keeps the tree shape |
| Effects.StateChangedKeepsWf | remoteFiles/filetreenode.cpp:396-410 | changeNodeState keeps the tree well formed |
| Effects.StateChangedKeepsLive | remoteFiles/filetreenode.cpp:396-410 | no listed child is being deleted after changeNodeState, because a node entering Deleting leaves its parent's list |
| Effects.StateChangedKeepsAttached | remoteFiles/filetreenode.cpp:396-410 | every live node stays listed by its parent |
| Effects.StateChangedKeepsRows | remoteFiles/filetreenode.cpp:396-410 | rows stay consistent with states |
| Effects.StateChangedKeepsShape | remoteFiles/filetreenode.cpp:396-410 | the three invariants together |
| Effects.StateChangedKeepsVisibility | remoteFiles/filetreenode.cpp:396-410 | changeNodeState changes no visibility flag and no parent |
| Effects.SameTreeKeepsShape | remoteFiles/filetreenode.cpp:150-211 | changing only sizes, flags, buffers or tasks keeps every tree invariant |
| Effects.Shown | remoteFiles/filetreenode.cpp:315 | the node's flag is set, and nothing else changes |
| Effects.AncestorsVisible | remoteFiles/filetreenode.cpp:312-323 | where visibility is closed upwards, every ancestor of a visible node is visible |
| Effects.VisibleNodeIsMadeVisible | remoteFiles/filetreenode.cpp:314 | setNodeVisible on a visible node changes nothing |
| Effects.RevealStep | remoteFiles/filetreenode.cpp:312-323 | one level of the recursion of setNodeVisible completes the chain |
| Effects.Revealed | remoteFiles/filetreenode.cpp:312-323 | setNodeVisible: no node and no link changes |
| Effects.RevealedMakesVisible | remoteFiles/filetreenode.cpp:312-323 | after setNodeVisible every node of the chain is visible; exactly the previously hidden ones have their state recomputed; nothing else changes |
| Effects.RevealedKeepsShape | remoteFiles/filetreenode.cpp:312-323 | setNodeVisible keeps the invariants and closes visibility upwards |
| Effects.RevealedShows | remoteFiles/filetreenode.cpp:312-323 | setNodeVisible only turns visibility flags on, and the node ends visible |
| Operations.StateChangedKeepsDeleting | remoteFiles/filetreenode.cpp:396-400 | changeNodeState never takes a node out of Deleting |
| Operations.RevealedKeepsDeleting | remoteFiles/filetreenode.cpp:312-323 | nor does setNodeVisible |
| Updates.WithInfoKeepsSound | remoteFiles/filetreenode.cpp:150-211 | changing a node's fields but not its key, links, children or visibility keeps soundness |
| Updates.Recomputed | remoteFiles/filetreenode.cpp:325-394 | recomputeNodeState: no field changes; a Deleting node stays so; any other takes the state its fields select |
| Updates.RecomputedKeepsSound | remoteFiles/filetreenode.cpp:325-394 | recomputeNodeState keeps soundness |
| Updates.StateChangedKeepsSound | remoteFiles/filetreenode.cpp:396-410 | changeNodeState keeps soundness |
| Updates.RevealedAll | remoteFiles/filetreenode.cpp:630-633 | setNodeVisible on each child: no node and no link changes |
| Updates.RevealedAllShows | remoteFiles/filetreenode.cpp:630-633 | the loop only turns flags on, and every child ends visible |
| Updates.RevealedAllKeepsSound | remoteFiles/filetreenode.cpp:630-633 | the loop keeps soundness |
| Updates.RevealedAllKeepsDeleting | remoteFiles/filetreenode.cpp:630-633 | nor does the loop making every child visible |
| Updates.ClearedKeepsSound | remoteFiles/filetreenode.cpp:638-645 | clearAllChildren keeps soundness |
| Updates.PurgedKeepsSound | remoteFiles/filetreenode.cpp:667-707 | purgeUnmatchedChildren keeps soundness |
| Updates.Updated | remoteFiles/filetreenode.cpp:611-636 | updateFileNodeData keeps soundness and the unused identities |
| Updates.Reconciled | remoteFiles/filetreenode.cpp:623-633 | the middle of updateFileNodeData keeps soundness |
| Updates.InsertedAllKeepsOwner | remoteFiles/filetreenode.cpp:625-628 | the insertion loop changes only the folder's list of children among its fields |
| Updates.ReconciledMetas | remoteFiles/filetreenode.cpp:623-633 | the children's records afterwards are InsertAll of the listing over the retained children's records |
| Updates.ReconciledShows | remoteFiles/filetreenode.cpp:623-633 | afterwards every child is visible, and the folder's own fields change only in children and (upwards) visibility |
| Updates.ReconciledOrder | remoteFiles/filetreenode.cpp:623-633 | afterwards the matched children come first, in their old order, followed by the new nodes numbered from the first unused identity |
| Updates.ReconciledDeletes | remoteFiles/filetreenode.cpp:623-633 | afterwards every former child that no non-"." entry matches is being deleted |
| Updates.UpdatedClears | remoteFiles/filetreenode.cpp:613-621 | a listing of at most one entry: contents known, no children, no other field changed, every former child being deleted |
| Updates.UpdatedListing | remoteFiles/filetreenode.cpp:623-635 | a longer listing: the children's records are InsertAll over the retained ones; their keys are exactly the listing's; all children are visible; the matched children come first in their old order, then the new nodes, numbered from the first unused identity; every unmatched former child is being deleted |
| Updates.UpdatedOwner | remoteFiles/filetreenode.cpp:611-636 | the folder's own fields change only by contents known, children and (upwards) visibility; it ends in the state its fields select unless being deleted |
| Updates.UpdatedLoaded | remoteFiles/filetreenode.cpp:611-636 | a visible folder with no pending listing task that is not being deleted ends FolderContentsLoaded |
| Operations.ReplacedKeepsShape | remoteFiles/filetreenode.cpp:667-707 | replacing a list of children by live children with unique keys keeps the invariants |
| Operations.Cleared | remoteFiles/filetreenode.cpp:638-645 | clearAllChildren: links kept, the folder ends with no children |
| Operations.TakeLastStep | remoteFiles/filetreenode.cpp:642-643 | one round moves no node and shortens the list |
| Operations.ClearedKeepsShape | remoteFiles/filetreenode.cpp:638-645 | clearAllChildren keeps the tree invariants |
| Operations.ClearedFields | remoteFiles/filetreenode.cpp:638-645 | clearAllChildren empties the list and changes no other field anywhere |
| Operations.TakenLastStates | remoteFiles/filetreenode.cpp:642-643 | one round sends exactly the last child to Deleting |
| Operations.ClearedStates | remoteFiles/filetreenode.cpp:638-645 | every former child is being deleted and no other state changes |
| Operations.TakenLast | remoteFiles/filetreenode.cpp:642-643 | one round of clearAllChildren: the last child leaves the list and is sent to Deleting |
| Operations.Reversed | remoteFiles/filetreenode.cpp:703-706 | the order of the second loop: element i is the old element from the back |
| Operations.ReversedTwice | remoteFiles/filetreenode.cpp:673-706 | reversing twice restores the list, so the two loops together keep the order |
| Operations.ReversedElems | remoteFiles/filetreenode.cpp:703-706 | reversing keeps the nodes |
| Operations.SiftStep | remoteFiles/filetreenode.cpp:675-700 | one round of the first loop: the list shortens, links and other fields are kept |
| Operations.SiftStepEffect | remoteFiles/filetreenode.cpp:675-700 | the last child joins the kept list if matched, and is sent to Deleting otherwise |
| Operations.Sifted | remoteFiles/filetreenode.cpp:673-701 | the first loop keeps links |
| Operations.SiftedFields | remoteFiles/filetreenode.cpp:673-701 | the first loop empties the list and changes no other field |
| Operations.SiftedStates | remoteFiles/filetreenode.cpp:673-701 | exactly the unmatched children are sent to Deleting |
| Operations.SiftedAlt | remoteFiles/filetreenode.cpp:673-701 | the kept list is the retained children, reversed |
| Operations.SiftedKeepsShape | remoteFiles/filetreenode.cpp:673-701 | the first loop keeps the invariants, counting kept children as off the list |
| Operations.SiftedKeepsCollected | remoteFiles/filetreenode.cpp:673-701 | the kept list holds only live, matched children of the folder |
| Operations.PurgedFields | remoteFiles/filetreenode.cpp:667-707 | purgeUnmatchedChildren leaves exactly the matched children in their old order, and no other field changes |
| Operations.Purged | remoteFiles/filetreenode.cpp:667-707 | purgeUnmatchedChildren: nothing for an empty list; otherwise the sifting loop, then the kept children appended back, last taken first |
| Operations.PurgedStates | remoteFiles/filetreenode.cpp:667-707 | exactly the unmatched children are being deleted |
| Operations.PurgedUnique | remoteFiles/filetreenode.cpp:703-706 | the children appended back have unique keys |
| Operations.AppendBackKeepsShape | remoteFiles/filetreenode.cpp:703-706 | the second loop restores the invariants |
| Operations.PurgedKeepsShape | remoteFiles/filetreenode.cpp:667-707 | purgeUnmatchedChildren keeps the tree invariants |
| Operations.InsertedOneCases | remoteFiles/filetreenode.cpp:647-665 | insertFile case by case: a new node when none matches; a size refresh only when the sizes differ |
| Operations.InsertedOneOwns | remoteFiles/filetreenode.cpp:647-665 | insertFile keeps the children owned and identities unused |
| Operations.InsertedOneKeepsOwner | remoteFiles/filetreenode.cpp:647-665 | insertFile changes only the folder's children among its fields |
| Operations.AdoptedOwns | remoteFiles/filetreenode.cpp:46-58 | the child constructor appends the new node last |
| Operations.InsertedAll | remoteFiles/filetreenode.cpp:625-628 | the insertion loop keeps the children owned and identities unused |
| Operations.ResizedMetas | remoteFiles/filetreenode.cpp:656-659 | a size refresh changes exactly that child's size |
| Operations.AdoptedMetas | remoteFiles/filetreenode.cpp:46-58 | the new node's record is appended to the children's records |
| Operations.InsertedOneMetas | remoteFiles/filetreenode.cpp:647-665 | insertFile on the registry is InsertOne on the children's records |
| Operations.InsertedAllMetas | remoteFiles/filetreenode.cpp:625-628 | the insertion loop on the registry is InsertAll on the records |
| Operations.ConstructedKeepsShape | remoteFiles/filetreenode.cpp:46-58 | the child constructor for an unmatched entry keeps the invariants |
| Operations.AdoptedKeepsShape | remoteFiles/filetreenode.cpp:46-58 | the child constructor keeps the invariants and visibility closed upwards |
| Operations.InsertedOneKeepsShape | remoteFiles/filetreenode.cpp:647-665 | insertFile keeps the invariants and visibility closed upwards |
| Operations.InsertedAllKeepsShape | remoteFiles/filetreenode.cpp:625-628 | the insertion loop keeps them |
| Operations.WfDistinct | remoteFiles/filetreenode.cpp:55 | in a well-formed tree no child is listed twice |
| Operations.ChildInfo | remoteFiles/filetreenode.cpp:46-58 | the fields of a new child: the entry's record, the parent, one level deeper, hidden, no children, buffer or tasks |
| Operations.Constructed | remoteFiles/filetreenode.cpp:46-58 | the child constructor before its state is computed: the node exists in Init without rows and is appended to its parent's list |
| Operations.Adopted | remoteFiles/filetreenode.cpp:46-58 | the child constructor: Constructed, then its state recomputed |
| Operations.Resized | remoteFiles/filetreenode.cpp:656-659 | setSize on a matched child, taken to change the child's own record |
| Operations.InsertedOne | remoteFiles/filetreenode.cpp:647-665 | insertFile: "." skipped; a matched child has its size refreshed when it differs; otherwise a new child with the next unused identity |
| Operations.InsertedOneChildren | remoteFiles/filetreenode.cpp:647-665 | insertFile leaves the list of children alone or appends exactly the node it created |
| Operations.InsertedAllPrefix | remoteFiles/filetreenode.cpp:625-628 | the insertion loop keeps the old children in front, in their order, and appends only nodes it created, numbered from the first unused identity |
| Operations.InsertedOneKeepsDeleting | remoteFiles/filetreenode.cpp:647-665 | insertFile takes no node out of Deleting |
| Operations.InsertedAllKeepsDeleting | remoteFiles/filetreenode.cpp:625-628 | nor does the insertion loop |
| Deliveries.RootedSound | remoteFiles/filetreenode.cpp:60-75 | the root constructor builds a sound one-node tree: a visible directory in FolderKnownContentsNot, with a top-level row showing "Loading" |
| Deliveries.RootInfo | remoteFiles/filetreenode.cpp:60-75 | the root's fields: the record as a directory, no parent, depth 0, visible, no children, buffer or tasks, contents unknown |
| Deliveries.Rooted | remoteFiles/filetreenode.cpp:60-75 | the root constructor: the root alone in Init without rows, then its state recomputed |
| Deliveries.LsTaskSet | remoteFiles/filetreenode.cpp:172-188 | setLStask: nothing for a null task or a non-directory; otherwise the task is recorded and the state recomputed |
| Deliveries.BuffTaskSet | remoteFiles/filetreenode.cpp:195-211 | setBuffTask: the same for a file |
| Deliveries.BufferSet | remoteFiles/filetreenode.cpp:150-165 | setFileBuffer: the copy is stored, the node made visible, its state recomputed |
| Deliveries.FolderContentsDeleted | remoteFiles/filetreenode.cpp:144-148 | deleteFolderContentsData: contents unknown, then clearAllChildren |
| Deliveries.BufferDelivered | remoteFiles/filetreenode.cpp:282-310 | deliverBuffData: the task is dropped; success stores the data, not found sends the node to Deleting, another failure recomputes the state |
| Deliveries.LsTaskSetEffect | remoteFiles/filetreenode.cpp:172-188 | setLStask: nothing for null or a non-directory; otherwise only the task changes and the folder is busy, speculatively iff hidden, unless being deleted |
| Deliveries.BuffTaskSetEffect | remoteFiles/filetreenode.cpp:195-211 | setBuffTask: the same for files |
| Deliveries.LsTaskSetKeepsSound | remoteFiles/filetreenode.cpp:172-188 | setLStask keeps soundness |
| Deliveries.BuffTaskSetKeepsSound | remoteFiles/filetreenode.cpp:195-211 | setBuffTask keeps soundness |
| Deliveries.BufferSetEffect | remoteFiles/filetreenode.cpp:150-165 | setFileBuffer: the node holds the copy and is visible, other nodes only become visible, and the node is in its selected state unless being deleted |
| Deliveries.BufferSetKeepsSound | remoteFiles/filetreenode.cpp:150-165 | setFileBuffer keeps soundness |
| Deliveries.FolderContentsDeletedEffect | remoteFiles/filetreenode.cpp:144-148 | deleteFolderContentsData: contents unknown, no children, no other field changed, every former child being deleted |
| Deliveries.FolderContentsDeletedKeepsSound | remoteFiles/filetreenode.cpp:144-148 | it keeps soundness |
| Deliveries.BufferDeliveredEffect | remoteFiles/filetreenode.cpp:282-310 | deliverBuffData: the task is dropped; success sets the data, makes the node visible and leaves a file loaded (with data) or known (without); not found means Deleting and, unless already so, the node has left its parent's list, with no other field changed; another failure recomputes the state, which for a file is not busy |
| Deliveries.BufferDeliveredKeepsSound | remoteFiles/filetreenode.cpp:282-310 | deliverBuffData keeps soundness |
| Deliveries.ListingDelivered | remoteFiles/filetreenode.cpp:253-280 | deliverLSdata keeps soundness and the unused identities |
| Deliveries.ListingDeliveredRejected | remoteFiles/filetreenode.cpp:256-263 | a failed reply, or one not meant for this node, only drops the task and recomputes the state |
| Deliveries.ListingDeliveredNotFound | remoteFiles/filetreenode.cpp:253-272 | a node not found loses its task and is being deleted; unless it already was, it has left its parent's list; no other field changes |
| Deliveries.ListingDeliveredApplied | remoteFiles/filetreenode.cpp:253-265 | an accepted reply: no task, contents known; at most one entry leaves no children and every former child being deleted; otherwise the records are InsertAll over the retained ones, the keys exactly the listed ones, all visible, the matched children first in their old order followed by new nodes, every unmatched former child being deleted; a visible folder not being deleted is loaded |
| FileTreeNodes.FindMatch | remoteFiles/filetreenode.cpp:681-691 | the matching loop finds a key iff a non-"." entry lists it |
| FileTreeNodes.GetControlAddress | remoteFiles/filetreenode.cpp:598-609 | the loop computes ControlAddress |
| FileTreeNodes.ClearStep | remoteFiles/filetreenode.cpp:640-644 | one round of the loop shortens the list and leaves the final result unchanged (loop variant and invariant) |
| FileTreeNodes.SiftStepNext | remoteFiles/filetreenode.cpp:673-701 | the same for the sifting loop |
| FileTreeNodes.FileTree.constructor | remoteFiles/filetreenode.cpp:60-75 | the root constructor builds Rooted: a sound one-node tree |
| FileTreeNodes.FileTree.GetChildNodeWithName | remoteFiles/filetreenode.cpp:218-229 | the loop computes ChildWithName |
| FileTreeNodes.FileTree.IsChildOfNode | remoteFiles/filetreenode.cpp:231-245 | the loop computes IsChildOf |
| FileTreeNodes.FileTree.SearchFromNode | remoteFiles/filetreenode.cpp:562-581 | the loop computes SearchFrom |
| FileTreeNodes.FileTree.PathSearchNode | remoteFiles/filetreenode.cpp:544-560 | computes PathSearch |
| FileTreeNodes.FileTree.VerifyControlNode | remoteFiles/filetreenode.cpp:583-596 | computes VerifyControl |
| FileTreeNodes.FileTree.HasVisibleChild | remoteFiles/filetreenode.cpp:519-522 | the loop decides whether some child is visible |
| FileTreeNodes.FileTree.UpdateRows | remoteFiles/filetreenode.cpp:465-536 | only the node's rows change, to Refreshed |
| FileTreeNodes.FileTree.RecomputeRows | remoteFiles/filetreenode.cpp:412-439 | the registry becomes WithRows |
| FileTreeNodes.FileTree.RecomputeRowsAround | remoteFiles/filetreenode.cpp:407-408 | the registry becomes RowsAround |
| FileTreeNodes.FileTree.Detach | remoteFiles/filetreenode.cpp:95-99 | the node leaves its parent's list |
| FileTreeNodes.FileTree.ChangeState | remoteFiles/filetreenode.cpp:396-410 | the registry becomes StateChanged; the node's record is logged iff the change fires |
| FileTreeNodes.FileTree.RecomputeState | remoteFiles/filetreenode.cpp:325-394 | the registry becomes Recomputed, with one log entry iff the state changes |
| FileTreeNodes.FileTree.SetNodeVisible | remoteFiles/filetreenode.cpp:312-323 | the registry becomes Revealed |
| FileTreeNodes.FileTree.ClearAllChildren | remoteFiles/filetreenode.cpp:638-645 | the loop computes Cleared |
| FileTreeNodes.FileTree.DeleteLastChild | remoteFiles/filetreenode.cpp:642-643 | one round computes TakenLast |
| FileTreeNodes.FileTree.PurgeUnmatchedChildren | remoteFiles/filetreenode.cpp:667-707 | the two loops compute Purged |
| FileTreeNodes.FileTree.AppendBack | remoteFiles/filetreenode.cpp:703-706 | the second loop appends the kept list reversed |
| FileTreeNodes.FileTree.SiftLastChild | remoteFiles/filetreenode.cpp:675-700 | one round computes SiftStep |
| FileTreeNodes.FileTree.FindChild | remoteFiles/filetreenode.cpp:651-662 | the loop computes FindKey on the children's records |
| FileTreeNodes.FileTree.NewChild | remoteFiles/filetreenode.cpp:46-58 | the child constructor computes Adopted and uses up one identity |
| FileTreeNodes.FileTree.InsertFile | remoteFiles/filetreenode.cpp:647-665 | computes InsertedOne |
| FileTreeNodes.FileTree.InsertEntries | remoteFiles/filetreenode.cpp:625-628 | the loop computes InsertedAll |
| FileTreeNodes.FileTree.RevealChildren | remoteFiles/filetreenode.cpp:630-633 | the loop computes RevealedAll |
| FileTreeNodes.FileTree.UpdateFileNodeData | remoteFiles/filetreenode.cpp:611-636 | computes Updated, keeps the tree valid, and only extends the log |
| FileTreeNodes.FileTree.ReconcileChildren | remoteFiles/filetreenode.cpp:623-633 | computes Reconciled and keeps the tree valid |
| FileTreeNodes.FileTree.SetFileBuffer | remoteFiles/filetreenode.cpp:150-165 | computes BufferSet and keeps the tree valid |
| FileTreeNodes.FileTree.SetLsTask | remoteFiles/filetreenode.cpp:172-188 | computes LsTaskSet and keeps the tree valid |
| FileTreeNodes.FileTree.SetBuffTask | remoteFiles/filetreenode.cpp:195-211 | computes BuffTaskSet and keeps the tree valid |
| FileTreeNodes.FileTree.DeleteFolderContentsData | remoteFiles/filetreenode.cpp:144-148 | computes FolderContentsDeleted and keeps the tree valid |
| FileTreeNodes.FileTree.DeliverBuffData | remoteFiles/filetreenode.cpp:282-310 | computes BufferDelivered and keeps the tree valid |
| FileTreeNodes.FileTree.DeliverLsData | remoteFiles/filetreenode.cpp:253-280 | computes ListingDelivered and keeps the tree valid |

## Left out

- Operations.Resized: the size refresh in `insertFile`
  (`(*itr)->getFileData().setSize(...)`) is taken to change the child's own
  record. `getFileData` returns a `FileNodeRef` by value, and whether that
  handle's `setSize` writes through to the node depends on `FileNodeRef`,
  which is not part of this model. If it does not, a re-listed child keeps
  its old size. The same assumption underlies `Reconcile.InsertOne`,
  `Reconcile.InsertAllSizes`, `Operations.InsertedOne`, and the records
  clause of `Updates.UpdatedListing` and `Deliveries.ListingDeliveredApplied`.

- Qt presentation rows are abstracted. The model keeps only whether a node has
  a row group and which placeholder hangs under it. Columns, item texts,
  `updateText`, persistent indexes and row positions are not modelled.
- The file operator is reduced to the log of records passed to
  `fileNodesChange`. Its model and every other member of it are not part of
  this model.
- Logging (`qCDebug`) is not modelled.
- `settimestamps` is not modelled: the clock is not modelled, so timestamps are
  left out of the record.
- Connecting and disconnecting task signals in `setLStask` and `setBuffTask`
  is not modelled. A task is an opaque identity, and a reply is delivered by
  calling `DeliverLsData` or `DeliverBuffData` directly.
- `deleteLater` runs at the end of `ChangeState(Deleting)`. The node leaves its
  parent's list then, as the destructor's `removeAll` would. Deferred deletion
  is not modelled.
- The destructor's recursive deletion of a deleted node's descendants and its
  `purgeModelItems` call are not modelled. Such descendants stay in the
  registry, unreachable from the root.
- The destructor's deletion of the buffer is not modelled, because memory is
  not modelled.
- `RequestState` is reduced to three outcomes: GOOD, FILE_NOT_FOUND, and every
  other value as one failure case, which the source also treats alike.
- Paths handed to the searches are sequences of segments, already split.
  `removeDoubleSlashes` and `FileMetaData::getPathNameList` are not part of
  this model. In a record (`Metadata.FileMeta`) the file name, the full path
  and the containing path are independent fields: the relation
  `FileMetaData` derives between them (the name is the last segment of the
  full path, the containing path the segments before it) is not modelled. The root's record
  is a parameter of the root constructor. An empty control address is the
  empty sequence.
- The root constructor takes the root folder's record as a parameter and
  forces its kind to directory. Building that record from the folder name
  (prefixing "/" and removing double slashes) is not modelled.
- `getNodeReletiveToNodeWithName` is modelled as `SearchFrom` on pre-split
  parts. `getNodeWithName` and `getClosestNodeWithName` are modelled as
  `PathSearch` with `stopEarly` false and true.
- The header's defaults are assumed for a new node: state Init, hidden (except
  the root), no tasks, no buffer, contents not known.
- Trivial getters are plain reads of the registry and have no member of their
  own: `isRootNode`, `getNodeState`, `getFileData`, `getFileBuffer`,
  `getParentNode`, `getChildList`, `getFirstModelIndex`, `haveLStask` and
  `haveBuffTask`.
- `updateModelItems` under a parent whose row list is empty: the source reads
  `first()` of an empty list. This is modelled like the case of a parent
  without a valid row, where no row is created.
- The loop in `updateFileNodeData` that calls `setNodeVisible` on each child
  is modelled over the list of children as it is when the loop starts.
  `setNodeVisible` never changes any list of children.
- FileTreeNodes.FileTree.UpdateFileNodeData: the log of file-operator
  notifications is only stated to grow. The same holds for the other
  composite operations. Only `ChangeState` and `RecomputeState` state the
  exact entry appended.
- Reconcile.ReconcileTwiceChangesNothing: idempotence of reconciliation is
  stated on the children's records and the retained list. It is not stated on
  the whole registry, whose states and rows a second pass may still recompute.
