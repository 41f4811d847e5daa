# Resource tree: repository and mutation engine

This project models the resource (menu) store of the sso-jwt-auth service. The
store lives in `models/resourceModels.go`. Resources form a forest: each row names
its parent by `res_up_id`, and `-1` marks a top-level node. The model covers:

- the depth-first walk `dfs` that lists the rows below a node (in a forest,
  exactly those rows: `ResourceTree.WalkExact`);
- the tree reads built on it:
  - `GetChildren`, the rows the walk lists;
  - `GetNodes`, the candidate parents for a node;
- create (`Post`): derived fields, then a validation chain;
- update (`Update`): self-parent and cycle guards;
- the transactional cascading `Delete`;
- the repository reads `Get`, `Query`, `GetInnerFlag` and `GetServiceCd`.

The store is the class `ResourceModels.ResourceModel`. Its fields are three
sequences:

- the resource table;
- the resource-id column of the role-relation table;
- the resource-id column of the theme-relation table.

Every call into the database adapter that can fail takes a parameter saying
whether it fails. For the delete loop this is an optional `ExecFault`: the row
position and the statement the adapter refuses. A transaction is a snapshot of
the three tables, and a rollback restores that snapshot.

`dfs` recurses through the parent relation and guards only against a row that
is its own parent. It therefore terminates only when the walk from the start id
never enters a parent cycle of two or more rows; a cycle elsewhere in the table
is never visited and does no harm (`ResourceTree.UnreachedCycleIgnored`). The
model states this with a ghost ranking `rank: string -> nat`
(`ResourceTree.RankedFrom(all, rank(start), rank)`): every row that is not its
own parent and whose parent ranks no higher than the start id ranks below its
parent. The walk only visits ids ranked at most as high as the start, so these
are the rows it can reach. `ResourceTree.Ranked` is the same condition on every
row of the table. `ResourceTree.Walk` is the ghost function that says what the
walk appends. `ResourceTree.Descends` is an independent definition of "below":
there is a parent chain from the node down to the row. The two agree in a
forest (`ResourceTree.Forest`): no parent cycle of any length, including a row
that is its own parent.

The operations that call `dfs` require `RankedFrom` only on the paths that
reach the walk. A guard that returns first, such as `Update`'s empty-name and
self-parent checks or a failed read, gives its result on any table, including
one whose walk from the id would never end
(`ResourceTree.CycleFromStartUnranked`).

The code was followed in three places where a reader might expect otherwise:

- Create checks only the format of the id and that the name, type and parent
  are non-empty. `ResourceRules.PostCheck` reads only the submitted row, never
  the table, so create accepts a parent that does not exist. It also accepts a
  row that names itself as its parent (`ResourceRules.PostAcceptsSelfParent`).
- `dfs` stops scanning a level at the first child that is its own parent. Later
  siblings, and everything below them, are not listed
  (`ResourceTree.SelfParentEndsLevel`, `ResourceTree.SelfParentHidesSibling`).
  So once such a row exists, the update cycle check can miss a cycle
  (`ResourceRules.SelfParentDefeatsCycleCheck`). For the same reason `Delete`
  leaves those later siblings in the table with their parent deleted, and
  `GetNodes` still offers them as candidate parents
  (`ResourceRules.SelfParentOrphansSibling`).
- Delete returns the tag `error_resource_commit` on every path that reaches the
  commit, including a successful one. Only the error value is nil on success.

## Model

| member | source | states |
|---|---|---|
| ResourceTree.Walk | models/resourceModels.go:254-265 | the ghost definition of the walk: every row it lists is a row of the table |
| ResourceTree.CycleFromStartUnranked | models/resourceModels.go:254-265 | with x and p each other's parent, no ranking supports the walk from x, which the source follows without end |
| ResourceTree.UnreachedCycleIgnored | models/resourceModels.go:254-265 | with x and y each other's parent, no ranking orders the whole table, yet the walk from an unrelated z is defined and lists nothing |
| ResourceTree.Dfs | models/resourceModels.go:254-265 | the rows appended to the caller's list are exactly `Walk(all, resId, 0)`: depth first, in table order at each level, and stopping a level after a self-parented child |
| ResourceTree.WalkGrounded | models/resourceModels.go:254-265 | every appended row comes from the table, and its parent is the start id or the id of a row appended before it |
| ResourceTree.WalkRanks | models/resourceModels.go:254-265 | every appended row ranks below the start id, except a self-parented row carrying the start id |
| ResourceTree.StartNotBelowItself | models/resourceModels.go:254-265 | the start row is appended only if it is its own parent; with no self-parented row its id is never among the appended ids |
| ResourceTree.WalkSound | models/resourceModels.go:254-265 | every appended row lies below the start id along a parent chain |
| ResourceTree.WalkComplete | models/resourceModels.go:254-265 | in a forest, the last row of every parent chain below the start id is appended |
| ResourceTree.WalkExact | models/resourceModels.go:254-265 | in a forest, a row is appended if and only if it lies below the start id |
| ResourceTree.ChildIncluded | models/resourceModels.go:255-263 | in a forest, the scan from position i appends every child at a position at or after i, and everything below that child |
| ResourceTree.SelfParentEndsLevel | models/resourceModels.go:258-261 | the first self-parented child of a level is the last row that level appends |
| ResourceTree.SelfParentHidesSibling | models/resourceModels.go:255-264 | for children a, r (self-parented) and b of r, the walk lists a and r but not b, although b lies below r |
| ResourceModels.ResourceModel.Get | models/resourceModels.go:36-45 | all rows in table order and nil, or no rows and the adapter's error |
| ResourceModels.ResourceModel.Query | models/resourceModels.go:71-80 | the rows with the given id, each as often as in the table, and no other row |
| ResourceModels.ResourceModel.GetInnerFlag | models/resourceModels.go:47-51 | the inner flag of the first row with the id; the default "true" with an error when the read fails or finds no row |
| ResourceModels.ResourceModel.GetServiceCd | models/resourceModels.go:53-57 | the service code of the first row with the id; the default "" with an error when the read fails or finds no row |
| ResourceModels.ResourceModel.GetChildren | models/resourceModels.go:59-68 | on a read failure, no rows and the read's error, on any table; otherwise exactly the walk from the id, and nil |
| ResourceModels.ResourceModel.GetNodes | models/resourceModels.go:227-251 | on either read failure, nothing and the error; otherwise the projection of every row, in table order, without the rows whose id is the id of a row listed by the walk from resId (in a forest, exactly the rows below it: `ResourceRules.CandidateParentsExact`) |
| ResourceModels.ResourceModel.ChildMap | models/resourceModels.go:239-242 | the map's keys are exactly the ids of the child list |
| ResourceModels.ResourceModel.SkipMapped | models/resourceModels.go:243-249 | the nodes whose id is not a key of the map, in order |
| ResourceRules.CandidateParentsExact | models/resourceModels.go:227-251 | in a forest, a projected row is a candidate parent iff no row below the node carries its id; the node's own row stays a candidate |
| ResourceRules.ResAttr | models/resourceModels.go:90-95 | the attribute is "0" iff the type is "0" or "4", and "1" otherwise |
| ResourceRules.InnerFlag | models/resourceModels.go:84-88 | the inner flag is "true" iff the service code is empty, and "false" otherwise |
| ResourceRules.ForcedUpId | models/resourceModels.go:97-100 | the parent create works with: "-1" for type "0", the supplied parent otherwise |
| ResourceRules.InsertedRow | models/resourceModels.go:84-125 | the inserted row carries the submitted id, name, type and service code and the forced parent; its attribute is "0" iff its type is "0" or "4", its inner flag is "true" iff its service code is empty, and the unlisted columns are empty |
| ResourceRules.PostCheck | models/resourceModels.go:97-120 | the result names the first failing check, in order: id format, empty name, empty type, empty (forced) parent. It is None iff all four pass |
| ResourceRules.TopLevelMenuForced | models/resourceModels.go:97-100 | a type-"0" row is inserted under "-1" as a container whatever parent was supplied, and its parent check never fails |
| ResourceRules.PostAcceptsSelfParent | models/resourceModels.go:102-125 | a row naming itself as parent passes every check and is inserted as such |
| ResourceModels.ResourceModel.Post | models/resourceModels.go:83-132 | a failing check returns its tag with the tag as error and changes nothing; a failing insert returns "error_resource_add" with the adapter's error and changes nothing; otherwise the derived row is appended and "success" is returned. The relation tables never change |
| ResourceModels.ResourceModel.ContainsId | models/resourceModels.go:208-212 | true iff some row of the list has the id |
| ResourceModels.ResourceModel.Update | models/resourceModels.go:191-225 | each guard in order (empty name, self-parent, failed children read, new parent listed by the walk from the node, failed write) returns its tag and error and changes nothing; the empty-name and self-parent guards do so on any table. Otherwise every row with the id takes the new name, parent and service code. A forest stays a forest |
| ResourceRules.Reparent | models/resourceModels.go:214-218 | the table after the update statement: same length; rows with other ids unchanged; rows with the id take the new name, parent and service code and keep every other column |
| ResourceRules.UpdateRefusesDescendant | models/resourceModels.go:197-212 | in a forest, moving a node under a row below it passes the self-parent check and is caught by the cycle check |
| ResourceRules.UpdateKeepsForest | models/resourceModels.go:197-218 | in a forest, an update that passes both guards leaves a forest (a new ranking exists) |
| ResourceRules.SelfParentDefeatsCycleCheck | models/resourceModels.go:208-218 | with a self-parented row x and a child p listed after it, moving x under p passes both guards and leaves a parent cycle that no ranking admits |
| ResourceModels.ResourceModel.AppendFirstWithId | models/resourceModels.go:146-152 | appends the first row with the id, or nothing when there is none |
| ResourceRules.DeletionSet | models/resourceModels.go:144-152 | the rows delete processes: rows of the table only; the walk's rows plus one more exactly when the id occurs in the table; and that last row carries the id iff the id occurs |
| ResourceRules.DeletionSetRootLast | models/resourceModels.go:144-152 | in a forest, the node's own row comes last in the deletion list and no earlier entry carries its id |
| ResourceModels.ResourceModel.DeleteNode | models/resourceModels.go:160-186 | one row of the loop: a system-owned row or a refused role-relation statement stops with the tables unchanged; a refused theme-relation statement leaves only the role-relation rows of the id removed; a refused row statement leaves the role- and theme-relation rows removed and the resource row in place; with no stop all three go. It also reports the statements that took effect, in order: none, the role-relation delete, those two, or all three |
| ResourceModels.ResourceModel.Rollback | models/resourceModels.go:160-187 | the tables are exactly the snapshot taken when the transaction began |
| ResourceRules.PurgeUpToIds | models/resourceModels.go:160-187 | deleting the rows of the list one at a time removes exactly the ids of the rows processed |
| ResourceModels.ResourceModel.DeleteRows | models/resourceModels.go:160-187 | the loop stops where the first stop occurs and rolls back to the snapshot; run to the end, it removes exactly the listed ids from all three tables, and the statements `DeleteNode` reports, collected in order, are the three statements per row |
| ResourceRules.FirstBlockNone | models/resourceModels.go:160-187 | the loop runs to the end iff no listed row is system-owned and no statement is refused |
| ResourceRules.SystemRowBlocks | models/resourceModels.go:162-165 | a system-owned row anywhere in the list stops the delete, with the system-resource tag when no statement is refused |
| ResourceRules.ScriptShape | models/resourceModels.go:160-187 | a full loop over N rows issues 3N statements: role relation, theme relation, row, for each row in order |
| ResourceModels.ResourceModel.RunTransaction | models/resourceModels.go:154-188 | a stop returns its tag and restores the tables; otherwise the tag is "error_resource_commit" with the commit's error, and the tables are purged of the listed ids or, on a failed commit, unchanged |
| ResourceModels.ResourceModel.Delete | models/resourceModels.go:135-189 | a failed read, on any table, or a failed begin returns its tag and changes nothing; a stop restores every table; on a failed commit nothing changes; otherwise the node and every row listed by the walk from it leave all three tables in one transaction (in a forest, exactly the rows below it: `ResourceRules.DeleteLeavesNoOrphans`). The ranking of the walk from the node, a whole-table ranking and the absence of self-parented rows are all preserved |
| ResourceRules.DeleteLeavesNoOrphans | models/resourceModels.go:144-188 | in a forest, every row below the node is deleted, and no remaining row lies below it or has a deleted row as parent |
| ResourceRules.DropKeepsForest | models/resourceModels.go:181-188 | deleting rows keeps a ranked table ranked, keeps every walk from an id of a given rank terminating, and keeps a table without self-parented rows so |
| ResourceRules.ThreeLevelExample | models/resourceModels.go:135-265 | with A at the top, B under A and C under B: the walk from A lists B then C, moving A under C is caught, and delete processes B, C, A |
| ResourceRules.SelfParentOrphansSibling | models/resourceModels.go:135-265 | for children a, r (self-parented) and b of r: the deletion set from r is a, r, r, so purging it leaves b, which lies below r, in the table with its parent gone; and the candidate parents for r still include b |

## Left out

- `controllers/helpController.go` is HTTP plumbing and is not part of this model.
- The SQL text is not part of this model. Inserts append at the end of the
  table. The update rewrites name, parent and service code of every row with
  the id. Each delete statement removes every row of its table with the id.
  The full-table query and the projection query return rows in the same order.
- `Get`: a `Scan` failure after a successful query may hand back a partial row
  list with the error. The model returns no rows with the error.
- `Query`: the same holds for its `Scan` at line 78: the model returns no rows
  with the error, where the source may return a partial list.
- `GetInnerFlag`, `GetServiceCd`: the adapter is taken to report an error when
  the query finds no row, and then the default is returned.
- Logging, the connection pool, concurrent callers and isolation between
  transactions are not modelled. Every operation runs alone on the store.
- `IsWord` is modelled as 1 to 30 ASCII letters or digits and `IsEmpty` as the
  empty string. The validator package is not part of this model.
- `InsertedRow`: the insert names only seven columns. The attribute
  description, type description and system flag of an inserted row are modelled
  as empty strings.
- `Dfs`, `GetChildren`, `GetNodes`, `Update`, `Delete`: when the walk from the
  start id enters a parent cycle of two or more rows, the source recurses until
  the stack overflows. On the paths that reach the walk, these members require
  `RankedFrom` for the start id and do not describe that behaviour. There the
  precondition also excludes one case in which the source does end: a cycle
  hanging off a later sibling of a self-parented child, which the scan never
  reaches because it stops at that child.
- `RunTransaction`: a failed commit is modelled as leaving the tables as they
  were before the transaction. The source issues no rollback at line 188, and
  what a failed commit leaves behind is up to the database.
- `dfs` appends to the caller's slice through `*rst`. The model passes the
  list in and returns the extended list.
- The delete loop refuses at most one statement (`ExecFault`). The loop stops at
  the first refusal, so later ones never matter.
- The commented-out `PostThemeInfo` at the end of the file is dead code and is
  left out.
- Reading twice gives the same rows because the reads are functions of the
  state. No separate member states this.
