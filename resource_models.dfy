/** The resource repository and mutation engine over the three tables it
    reads and writes.  Each call into the database adapter that can fail takes
    a flag (or, for the delete transaction, a fault) saying whether it does. */
module ResourceModels {
  import opened ResourceTypes
  import opened Validator
  import opened ResourceTree
  import opened ResourceRules

  class ResourceModel {
    /** The resource table, in the order the full query returns it. */
    var res: seq<ResData>
    /** The resource-id column of the role-relation table. */
    var roleRel: seq<string>
    /** The resource-id column of the theme-relation table. */
    var themeRel: seq<string>

    constructor (res0: seq<ResData>, roleRel0: seq<string>, themeRel0: seq<string>)
      ensures res == res0 && roleRel == roleRel0 && themeRel == themeRel0
    {
      res, roleRel, themeRel := res0, roleRel0, themeRel0;
    }

    function Tables(): Snapshot
      reads this
    {
      Snapshot(res, roleRel, themeRel)
    }

    // -------------------------------------------------------------------
    // Repository reads

    /** All resource rows, or nothing and the adapter's error. */
    method Get(fails: bool) returns (rows: seq<ResData>, err: Error)
      ensures fails ==> rows == [] && err == StorageError
      ensures !fails ==> rows == res && err == Nil
    {
      if fails {
        return [], StorageError;
      }
      return res, Nil;
    }

    /** The detail rows of one resource id. */
    method Query(resId: string, fails: bool) returns (rows: seq<ResData>, err: Error)
      ensures fails ==> rows == [] && err == StorageError
      ensures !fails ==> err == Nil && forall e :: e in rows <==> e in res && e.resId == resId
      ensures !fails ==> forall e :: multiset(rows)[e] == if e.resId == resId then multiset(res)[e] else 0
    {
      if fails {
        return [], StorageError;
      }
      return RowsWithId(res, resId), Nil;
    }

    /** The inner flag of a resource; "true" with an error when the read fails
        or finds no row. */
    method GetInnerFlag(resId: string, fails: bool) returns (flag: string, err: Error)
      ensures fails || resId !in IdsOf(res) ==> flag == "true" && err == StorageError
      ensures !fails && resId in IdsOf(res) ==> err == Nil && flag == FirstWithId(res, resId)[0].innerFlag
    {
      flag := "true";
      var found := FirstWithId(res, resId);
      if fails || found == [] {
        return flag, StorageError;
      }
      return found[0].innerFlag, Nil;
    }

    /** The service code of a resource; empty with an error when the read
        fails or finds no row. */
    method GetServiceCd(resId: string, fails: bool) returns (serviceCd: string, err: Error)
      ensures fails || resId !in IdsOf(res) ==> serviceCd == "" && err == StorageError
      ensures !fails && resId in IdsOf(res) ==> err == Nil && serviceCd == FirstWithId(res, resId)[0].serviceCd
    {
      serviceCd := "";
      var found := FirstWithId(res, resId);
      if fails || found == [] {
        return serviceCd, StorageError;
      }
      return found[0].serviceCd, Nil;
    }

    // -------------------------------------------------------------------
    // Tree reads

    /** The rows below `resId`, as the depth-first walk lists them. */
    method GetChildren(resId: string, fails: bool, ghost rank: Rank) returns (children: seq<ResData>, err: Error)
      requires !fails ==> RankedFrom(res, rank(resId), rank)
      ensures fails ==> children == [] && err == StorageError
      ensures !fails ==> children == Walk(res, resId, 0, rank) && err == Nil
    {
      var all, e := Get(fails);
      if e != Nil {
        return [], e;
      }
      children := Dfs(all, resId, [], rank);
      err := Nil;
    }

    /** The candidate parents for `resId`: the id/name/parent projection of
        every row, less the rows whose id is the id of a row below `resId`. */
    method GetNodes(resId: string, sliceFails: bool, getFails: bool, ghost rank: Rank)
      returns (nodes: seq<ResNodeData>, err: Error)
      requires !sliceFails && !getFails ==> RankedFrom(res, rank(resId), rank)
      ensures sliceFails || getFails ==> nodes == [] && err == StorageError
      ensures !sliceFails && !getFails ==>
        err == Nil && nodes == Drop(Project(res), NodeKey, IdsOf(Walk(res, resId, 0, rank)))
    {
      if sliceFails {
        return [], StorageError;
      }
      var rst := Project(res);
      var childList, e := GetChildren(resId, getFails, rank);
      if e != Nil {
        return [], e;
      }
      var mp := ChildMap(childList);
      nodes := SkipMapped(rst, mp);
      err := Nil;
    }

    /** The ids of `childList` as the keys of a map. */
    static method ChildMap(childList: seq<ResData>) returns (mp: map<string, string>)
      ensures mp.Keys == IdsOf(childList)
    {
      mp := map[];
      var i := 0;
      while i < |childList|
        invariant 0 <= i <= |childList|
        invariant mp.Keys == IdsOf(childList[..i])
      {
        IdsOfAppend(childList[..i], [childList[i]]);
        assert childList[..i + 1] == childList[..i] + [childList[i]];
        mp := mp[childList[i].resId := ""];
        i := i + 1;
      }
      assert childList[..i] == childList;
    }

    /** The nodes of `rst` whose id is not a key of `mp`, in order. */
    static method SkipMapped(rst: seq<ResNodeData>, mp: map<string, string>) returns (nodes: seq<ResNodeData>)
      ensures nodes == Drop(rst, NodeKey, mp.Keys)
    {
      nodes := [];
      var k := 0;
      while k < |rst|
        invariant 0 <= k <= |rst|
        invariant nodes == Drop(rst[..k], NodeKey, mp.Keys)
      {
        DropPrefixStep(rst, NodeKey, mp.Keys, k);
        if rst[k].resId !in mp {
          nodes := nodes + [rst[k]];
        }
        k := k + 1;
      }
      assert rst[..k] == rst;
    }

    // -------------------------------------------------------------------
    // Create

    /** Derives the attribute, inner flag and forced parent, runs the four
        checks in order, and inserts one row only when all of them pass. */
    method Post(data: ResData, insertFails: bool) returns (tag: string, err: Error)
      modifies this
      ensures roleRel == old(roleRel) && themeRel == old(themeRel)
      ensures PostCheck(data).Some? ==>
        tag == PostCheck(data).value && err == Tagged(tag) && res == old(res)
      ensures PostCheck(data) == None && insertFails ==>
        tag == ErrAdd && err == StorageError && res == old(res)
      ensures PostCheck(data) == None && !insertFails ==>
        tag == Success && err == Nil && res == old(res) + [InsertedRow(data)]
    {
      var innerFlag := "false";
      if |data.serviceCd| == 0 {
        innerFlag := "true";
      }
      var resAttr := "1";
      if data.resType == "0" || data.resType == "4" {
        resAttr := "0";
      }
      var row := data;
      if data.resType == "0" {
        row := row.(resUpId := TopLevel);
      }
      if !IsWord(row.resId) {
        return ErrResId, Tagged(ErrResId);
      }
      if IsEmpty(row.resName) {
        return ErrDescEmpty, Tagged(ErrDescEmpty);
      }
      if IsEmpty(row.resType) {
        return ErrType, Tagged(ErrType);
      }
      if IsEmpty(row.resUpId) {
        return ErrUpId, Tagged(ErrUpId);
      }
      if insertFails {
        return ErrAdd, StorageError;
      }
      res := res + [ResData(row.resId, row.resName, resAttr, "", row.resUpId, row.resType, "", "", innerFlag, row.serviceCd)];
      return Success, Nil;
    }

    // -------------------------------------------------------------------
    // Update

    /** Whether some row of `list` has the id `id`. */
    static method ContainsId(list: seq<ResData>, id: string) returns (found: bool)
      ensures found <==> id in IdsOf(list)
    {
      var i := 0;
      while i < |list|
        invariant 0 <= i <= |list|
        invariant id !in IdsOf(list[..i])
      {
        if list[i].resId == id {
          return true;
        }
        IdsOfAppend(list[..i], [list[i]]);
        assert list[..i + 1] == list[..i] + [list[i]];
        i := i + 1;
      }
      assert list[..i] == list;
      return false;
    }

    /** Refuses an empty name, a node made its own parent, and a new parent
        found below the node; otherwise writes the new name, parent and
        service code.  `rank'` ranks the new rows: when the old rows formed a
        forest, so do the new ones. */
    method Update(arg: ResData, getFails: bool, execFails: bool, ghost rank: Rank)
      returns (tag: string, err: Error, ghost rank': Rank)
      requires !IsEmpty(arg.resName) && arg.resId != arg.resUpId && !getFails ==>
        RankedFrom(res, rank(arg.resId), rank)
      modifies this
      ensures roleRel == old(roleRel) && themeRel == old(themeRel)
      ensures IsEmpty(arg.resName) ==>
        tag == ErrDescEmpty && err == Tagged(ErrDescEmpty) && res == old(res)
      ensures !IsEmpty(arg.resName) && arg.resId == arg.resUpId ==>
        tag == ErrUpdateSame && err == Tagged(ErrUpdateSame) && res == old(res)
      ensures !IsEmpty(arg.resName) && arg.resId != arg.resUpId && getFails ==>
        tag == ErrUpdate && err == Tagged(ErrUpdate) && res == old(res)
      ensures (!IsEmpty(arg.resName) && arg.resId != arg.resUpId && !getFails &&
               arg.resUpId in IdsOf(Walk(old(res), arg.resId, 0, rank))) ==>
        tag == ErrUpdate && err == Tagged(ErrUpdate) && res == old(res)
      ensures (!IsEmpty(arg.resName) && arg.resId != arg.resUpId && !getFails &&
               arg.resUpId !in IdsOf(Walk(old(res), arg.resId, 0, rank))) ==>
        tag == (if execFails then ErrUpdate else Success) &&
        err == (if execFails then StorageError else Nil) &&
        res == (if execFails then old(res) else Reparent(old(res), arg))
      ensures Forest(old(res), rank) ==> Forest(res, rank')
    {
      rank' := rank;
      if IsEmpty(arg.resName) {
        return ErrDescEmpty, Tagged(ErrDescEmpty), rank';
      }
      if arg.resId == arg.resUpId {
        return ErrUpdateSame, Tagged(ErrUpdateSame), rank';
      }
      var childList, e := GetChildren(arg.resId, getFails, rank);
      if e != Nil {
        return ErrUpdate, Tagged(ErrUpdate), rank';
      }
      var cyclic := ContainsId(childList, arg.resUpId);
      if cyclic {
        return ErrUpdate, Tagged(ErrUpdate), rank';
      }
      if execFails {
        return ErrUpdate, StorageError, rank';
      }
      if Forest(res, rank) {
        rank' := UpdateKeepsForest(res, arg, rank);
      }
      res := Reparent(res, arg);
      return Success, Nil, rank';
    }

    // -------------------------------------------------------------------
    // Delete

    /** The rows below `resId` followed by the first row whose id is `resId`. */
    static method AppendFirstWithId(all: seq<ResData>, resId: string, rst: seq<ResData>) returns (out: seq<ResData>)
      ensures out == rst + FirstWithId(all, resId)
    {
      out := rst;
      var i := 0;
      while i < |all|
        invariant 0 <= i <= |all|
        invariant FirstWithId(all, resId) == FirstWithId(all[i..], resId)
      {
        FirstWithIdFrom(all, resId, i);
        if all[i].resId == resId {
          out := out + [all[i]];
          return;
        }
        i := i + 1;
      }
      assert all[i..] == [];
    }

    /** Undoes every write since the transaction began. */
    method Rollback(snapshot: Snapshot)
      modifies this
      ensures Tables() == snapshot
    {
      res, roleRel, themeRel := snapshot.res, snapshot.roleRel, snapshot.themeRel;
    }

    /** The statements for one row inside the delete transaction: stop on a
        system-owned row, otherwise delete its role-relation rows, its
        theme-relation rows and the row itself, stopping at the first refused
        statement.  `done` lists the statements that took effect, in order. */
    method DeleteNode(val: ResData, j: nat, fault: Option<ExecFault>)
      returns (stop: Option<string>, ghost done: seq<Stmt>)
      modifies this
      ensures stop == NodeBlock(val, j, fault)
      ensures stop == None ==> Tables() == Purge(old(Tables()), {val.resId}) && done == RowStmts(val)
      ensures val.sysFlag == "0" || fault == Some(ExecFault(j, RoleRelation)) ==>
        Tables() == old(Tables()) && done == []
      ensures val.sysFlag != "0" && fault == Some(ExecFault(j, ThemeRelation)) ==>
        res == old(res) && roleRel == Drop(old(roleRel), RelKey, {val.resId}) && themeRel == old(themeRel) &&
        done == RowStmts(val)[..1]
      ensures val.sysFlag != "0" && fault == Some(ExecFault(j, ResourceRow)) ==>
        res == old(res) && roleRel == Drop(old(roleRel), RelKey, {val.resId}) &&
        themeRel == Drop(old(themeRel), RelKey, {val.resId}) && done == RowStmts(val)[..2]
    {
      done := [];
      if val.sysFlag == "0" {
        return Some(ErrForbidSystem), done;
      }
      if fault == Some(ExecFault(j, RoleRelation)) {
        return Some(ErrRoleRelation), done;
      }
      roleRel := Drop(roleRel, RelKey, {val.resId});
      done := done + [DeleteStmt(RoleRelation, val.resId)];
      if fault == Some(ExecFault(j, ThemeRelation)) {
        return Some(ErrThemeRelation), done;
      }
      themeRel := Drop(themeRel, RelKey, {val.resId});
      done := done + [DeleteStmt(ThemeRelation, val.resId)];
      if fault == Some(ExecFault(j, ResourceRow)) {
        return Some(ErrDelete), done;
      }
      res := Drop(res, ResKey, {val.resId});
      done := done + [DeleteStmt(ResourceRow, val.resId)];
      return None, done;
    }

    /** The loop inside the delete transaction, over the deletion set in
        order.  A stop rolls back every write of the loop.  `issued` collects
        the statements `DeleteNode` reports as executed. */
    method DeleteRows(rst: seq<ResData>, fault: Option<ExecFault>) returns (blocked: Option<string>, ghost issued: seq<Stmt>)
      modifies this
      ensures blocked == FirstBlock(rst, fault, 0)
      ensures blocked.Some? ==> Tables() == old(Tables())
      ensures blocked == None ==> Tables() == Purge(old(Tables()), IdsOf(rst)) && issued == Script(rst)
    {
      var snapshot := Tables();
      issued := [];
      var j := 0;
      while j < |rst|
        invariant 0 <= j <= |rst|
        invariant Tables() == PurgeUpTo(snapshot, rst, j)
        invariant FirstBlock(rst, fault, 0) == FirstBlock(rst, fault, j)
        invariant issued == ScriptUpTo(rst, j)
      {
        var val := rst[j];
        FirstBlockStep(rst, fault, j);
        var stop, done := DeleteNode(val, j, fault);
        issued := issued + done;
        if stop.Some? {
          Rollback(snapshot);
          return stop, issued;
        }
        j := j + 1;
      }
      PurgeUpToIds(snapshot, rst, j);
      assert rst[..j] == rst;
      return None, issued;
    }

    /** The delete transaction over the deletion set `rst`: the row loop,
        then the commit.  On the commit path the tag is
        "error_resource_commit", paired with the commit's own error, which is
        nil on success; a failed commit leaves the tables as they were. */
    method RunTransaction(rst: seq<ResData>, fault: Option<ExecFault>, commitFails: bool)
      returns (tag: string, err: Error, ghost issued: seq<Stmt>)
      modifies this
      ensures FirstBlock(rst, fault, 0).Some? ==>
        tag == FirstBlock(rst, fault, 0).value && err == BlockError(tag) && Tables() == old(Tables())
      ensures FirstBlock(rst, fault, 0) == None ==>
        tag == ErrCommit && issued == Script(rst) &&
        (commitFails ==> err == StorageError && Tables() == old(Tables())) &&
        (!commitFails ==> err == Nil && Tables() == Purge(old(Tables()), IdsOf(rst)))
    {
      var snapshot := Tables();
      var blocked;
      blocked, issued := DeleteRows(rst, fault);
      if blocked.Some? {
        return blocked.value, BlockError(blocked.value), issued;
      }
      if commitFails {
        Rollback(snapshot);
        return ErrCommit, StorageError, issued;
      }
      return ErrCommit, Nil, issued;
    }

    /** Cascading delete of `resId` and every row below it, with their
        role-relation and theme-relation rows, in one transaction: all of it
        or none of it. */
    method Delete(resId: string, getFails: bool, beginFails: bool, fault: Option<ExecFault>,
                  commitFails: bool, ghost rank: Rank)
      returns (tag: string, err: Error, ghost issued: seq<Stmt>)
      requires !getFails ==> RankedFrom(res, rank(resId), rank)
      modifies this
      ensures getFails ==> tag == ErrQuery && err == StorageError && Tables() == old(Tables())
      ensures !getFails && beginFails ==> tag == ErrBegin && err == StorageError && Tables() == old(Tables())
      ensures !getFails && !beginFails && FirstBlock(DeletionSet(old(res), resId, rank), fault, 0).Some? ==>
        var stop := FirstBlock(DeletionSet(old(res), resId, rank), fault, 0).value;
        tag == stop && err == BlockError(stop) && Tables() == old(Tables())
      ensures !getFails && !beginFails && FirstBlock(DeletionSet(old(res), resId, rank), fault, 0) == None ==>
        tag == ErrCommit && issued == Script(DeletionSet(old(res), resId, rank)) &&
        (commitFails ==> err == StorageError && Tables() == old(Tables())) &&
        (!commitFails ==> err == Nil && Tables() == Purge(old(Tables()), IdsOf(DeletionSet(old(res), resId, rank))))
      ensures RankedFrom(old(res), rank(resId), rank) ==> RankedFrom(res, rank(resId), rank)
      ensures Ranked(old(res), rank) ==> Ranked(res, rank)
      ensures NoSelfParent(old(res)) ==> NoSelfParent(res)
    {
      issued := [];
      var all, e := Get(getFails);
      if e != Nil {
        return ErrQuery, e, issued;
      }
      var rst := Dfs(all, resId, [], rank);
      rst := AppendFirstWithId(all, resId, rst);
      assert rst == DeletionSet(old(res), resId, rank);
      if beginFails {
        return ErrBegin, StorageError, issued;
      }
      tag, err, issued := RunTransaction(rst, fault, commitFails);
      DropKeepsForest(old(res), IdsOf(rst), rank(resId), rank);
    }
  }
}
