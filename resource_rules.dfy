/** The decisions the mutation operations take before they write: the derived
    fields and validation chain of create, the guards of update, and what the
    cascading delete removes and where it stops. */
module ResourceRules {
  import opened ResourceTypes
  import opened Validator
  import opened ResourceTree

  // ---------------------------------------------------------------------
  // Create

  /** The stored attribute: "0" (container) for types "0" and "4", "1" (leaf)
      for every other type. */
  function ResAttr(resType: string): (attr: string)
    ensures attr == "0" <==> resType == "0" || resType == "4"
    ensures attr == "1" <==> !(resType == "0" || resType == "4")
  {
    if resType == "0" || resType == "4" then "0" else "1"
  }

  /** The stored inner flag: "true" exactly when no service code is given. */
  function InnerFlag(serviceCd: string): (flag: string)
    ensures flag == "true" <==> |serviceCd| == 0
    ensures flag == "false" <==> |serviceCd| != 0
  {
    if |serviceCd| == 0 then "true" else "false"
  }

  /** The parent id create works with: type "0" forces the top-level id. */
  function ForcedUpId(data: ResData): (up: string)
    ensures data.resType == "0" ==> up == TopLevel
    ensures data.resType != "0" ==> up == data.resUpId
  {
    if data.resType == "0" then TopLevel else data.resUpId
  }

  /** The row create inserts.  The insert names only id, name, attribute,
      parent, type, inner flag and service code; the other columns are empty. */
  function InsertedRow(data: ResData): (row: ResData)
    ensures row.resId == data.resId && row.resName == data.resName
    ensures row.resType == data.resType && row.serviceCd == data.serviceCd
    ensures row.resUpId == ForcedUpId(data)
    ensures row.resAttr == "0" <==> row.resType == "0" || row.resType == "4"
    ensures row.innerFlag == "true" <==> |row.serviceCd| == 0
    ensures row.resType == "0" ==> row.resUpId == TopLevel && row.resAttr == "0"
    ensures row.resAttrDesc == "" && row.resTypeDesc == "" && row.sysFlag == ""
  {
    ResData(data.resId, data.resName, ResAttr(data.resType), "", ForcedUpId(data),
            data.resType, "", "", InnerFlag(data.serviceCd), data.serviceCd)
  }

  /** The first failing check of create, on the data after the parent has been
      forced; None when every check passes. */
  function PostCheck(data: ResData): (tag: Option<string>)
    ensures tag == None <==>
      IsWord(data.resId) && !IsEmpty(data.resName) && !IsEmpty(data.resType) && !IsEmpty(ForcedUpId(data))
    ensures tag == Some(ErrResId) <==> !IsWord(data.resId)
    ensures tag == Some(ErrDescEmpty) <==> IsWord(data.resId) && IsEmpty(data.resName)
    ensures tag == Some(ErrType) <==>
      IsWord(data.resId) && !IsEmpty(data.resName) && IsEmpty(data.resType)
    ensures tag == Some(ErrUpId) <==>
      IsWord(data.resId) && !IsEmpty(data.resName) && !IsEmpty(data.resType) && IsEmpty(ForcedUpId(data))
  {
    if !IsWord(data.resId) then Some(ErrResId)
    else if IsEmpty(data.resName) then Some(ErrDescEmpty)
    else if IsEmpty(data.resType) then Some(ErrType)
    else if IsEmpty(ForcedUpId(data)) then Some(ErrUpId)
    else None
  }

  /** A top-level subsystem menu (type "0") is stored as a container under the
      top-level id whatever parent was supplied, so its parent check never fails. */
  lemma TopLevelMenuForced(data: ResData, up: string)
    requires data.resType == "0"
    ensures InsertedRow(data) == InsertedRow(data.(resUpId := up))
    ensures InsertedRow(data).resUpId == TopLevel && InsertedRow(data).resAttr == "0"
    ensures PostCheck(data) != Some(ErrUpId)
    ensures PostCheck(data) == PostCheck(data.(resUpId := up))
  {
  }

  /** Create keeps only what the validation chain checks: a row may name
      itself as its parent. */
  lemma PostAcceptsSelfParent()
    ensures var data := ResData("a", "menu", "", "", "a", "1", "", "", "", "");
            PostCheck(data) == None && InsertedRow(data).resId == InsertedRow(data).resUpId
  {
    var data := ResData("a", "menu", "", "", "a", "1", "", "", "", "");
    assert IsWord(data.resId);
  }

  // ---------------------------------------------------------------------
  // Update

  /** The rows after update: every row with the given id takes the new name,
      parent and service code. */
  function Reparent(all: seq<ResData>, arg: ResData): (after: seq<ResData>)
    ensures |after| == |all|
    ensures forall k :: 0 <= k < |all| && all[k].resId != arg.resId ==> after[k] == all[k]
    ensures forall k :: 0 <= k < |all| && all[k].resId == arg.resId ==>
      && after[k].resId == arg.resId
      && after[k].resName == arg.resName && after[k].resUpId == arg.resUpId && after[k].serviceCd == arg.serviceCd
      && after[k].resAttr == all[k].resAttr && after[k].resAttrDesc == all[k].resAttrDesc
      && after[k].resType == all[k].resType && after[k].resTypeDesc == all[k].resTypeDesc
      && after[k].sysFlag == all[k].sysFlag && after[k].innerFlag == all[k].innerFlag
  {
    seq(|all|, k requires 0 <= k < |all| =>
      if all[k].resId == arg.resId
      then all[k].(resName := arg.resName, resUpId := arg.resUpId, serviceCd := arg.serviceCd)
      else all[k])
  }

  /** Moving a node under one of the rows below it is refused by the cycle
      check: the rows below it never carry its own id, so the self-parent check
      does not fire first, and the new parent is among the walked ids. */
  lemma UpdateRefusesDescendant(all: seq<ResData>, arg: ResData, below: ResData, rank: Rank)
    requires Forest(all, rank)
    requires Descends(all, arg.resId, below) && arg.resUpId == below.resId
    ensures arg.resId != arg.resUpId
    ensures arg.resUpId in IdsOf(Walk(all, arg.resId, 0, rank))
  {
    WalkExact(all, arg.resId, rank);
    StartNotBelowItself(all, arg.resId, rank);
  }

  /** In a forest, an update that passes the self-parent and cycle checks
      leaves a forest: the moved subtree keeps its ranks and every other id is
      lifted above it. */
  lemma UpdateKeepsForest(all: seq<ResData>, arg: ResData, rank: Rank) returns (rank': Rank)
    requires Forest(all, rank)
    requires arg.resId != arg.resUpId
    requires arg.resUpId !in IdsOf(Walk(all, arg.resId, 0, rank))
    ensures Forest(Reparent(all, arg), rank')
  {
    var x := arg.resId;
    var moved := {x} + IdsOf(Walk(all, x, 0, rank));
    var lift := rank(x) + 1;
    rank' := id => if id in moved then rank(id) else rank(id) + lift;
    var after := Reparent(all, arg);
    WalkExact(all, x, rank);
    WalkGrounded(all, x, 0, rank);
    forall k | 0 <= k < |after| && after[k].resId != after[k].resUpId
      ensures rank'(after[k].resId) < rank'(after[k].resUpId)
    {
      var c, q := all[k].resId, all[k].resUpId;
      assert c != q;
      if c == x {
        assert after[k].resUpId == arg.resUpId && arg.resUpId !in moved;
      } else {
        assert after[k] == all[k];
        if q in moved && c !in moved {
          ParentInSubtree(all, x, k, rank);
          assert false;
        }
      }
    }
  }

  /** A row whose parent is `x` or lies below `x` lies below `x` itself. */
  lemma ParentInSubtree(all: seq<ResData>, x: string, k: nat, rank: Rank)
    requires Forest(all, rank) && k < |all|
    requires all[k].resUpId in {x} + IdsOf(Walk(all, x, 0, rank))
    ensures all[k].resId in IdsOf(Walk(all, x, 0, rank))
  {
    var e := all[k];
    WalkExact(all, x, rank);
    if e.resUpId == x {
      assert IsChain(all, x, [e]);
    } else {
      var p :| p in Walk(all, x, 0, rank) && p.resId == e.resUpId;
      var c :| IsChain(all, x, c) && c[|c| - 1] == p;
      ChainAppend(all, x, c, e);
      assert (c + [e])[|c + [e]| - 1] == e;
    }
    assert e in Walk(all, x, 0, rank);
  }

  /** The update check can miss a cycle once a row is already its own parent:
      the walk from `x` stops at the self-parented row `x`, the child `p`
      listed after it is not seen, and moving `x` under `p` closes a cycle of
      length two that no ranking admits. */
  lemma SelfParentDefeatsCycleCheck()
    ensures var all := [Row("x", "x"), Row("p", "x")];
            var rank: Rank := id => if id == "x" then 1 else 0;
            var arg := ResData("x", "menu", "", "", "p", "", "", "", "", "");
            Ranked(all, rank) &&
            arg.resId != arg.resUpId &&
            arg.resUpId !in IdsOf(Walk(all, "x", 0, rank)) &&
            forall rank2: Rank :: !Ranked(Reparent(all, arg), rank2)
  {
    var all := [Row("x", "x"), Row("p", "x")];
    var rank: Rank := id => if id == "x" then 1 else 0;
    var arg := ResData("x", "menu", "", "", "p", "", "", "", "", "");
    assert Ranked(all, rank);
    assert Walk(all, "x", 0, rank) == [Row("x", "x")];
    var after := Reparent(all, arg);
    assert after[0].resId == "x" && after[0].resUpId == "p";
    assert after[1] == Row("p", "x");
    assert after[0].resId != after[0].resUpId && after[1].resId != after[1].resUpId;
  }

  // ---------------------------------------------------------------------
  // Delete

  /** The rows delete processes, in order: the rows below `r`, then the first
      row whose id is `r`. */
  ghost function DeletionSet(all: seq<ResData>, r: string, rank: Rank): (ds: seq<ResData>)
    requires RankedFrom(all, rank(r), rank)
    ensures forall e :: e in ds ==> e in all
    ensures |ds| == |Walk(all, r, 0, rank)| + (if r in IdsOf(all) then 1 else 0)
    ensures r in IdsOf(all) <==> ds != [] && ds[|ds| - 1].resId == r
  {
    Walk(all, r, 0, rank) + FirstWithId(all, r)
  }

  /** The statements delete issues for one row, in order. */
  datatype Step = RoleRelation | ThemeRelation | ResourceRow

  /** The database adapter refuses the given step for the `node`-th row of the
      deletion set. */
  datatype ExecFault = ExecFault(node: nat, step: Step)

  datatype Stmt = DeleteStmt(step: Step, resId: string)

  function StepTag(s: Step): string
  {
    match s
    case RoleRelation => ErrRoleRelation
    case ThemeRelation => ErrThemeRelation
    case ResourceRow => ErrDelete
  }

  /** The error delete pairs with a stopping tag. */
  function BlockError(tag: string): Error
  {
    if tag == ErrForbidSystem then Tagged(tag) else StorageError
  }

  /** Where the delete loop stops at the `j`-th row: on a system-owned row
      before any statement, or on the statement the adapter refuses. */
  function NodeBlock(row: ResData, j: nat, fault: Option<ExecFault>): Option<string>
  {
    if row.sysFlag == "0" then Some(ErrForbidSystem)
    else if fault.Some? && fault.value.node == j then Some(StepTag(fault.value.step))
    else None
  }

  /** Where the delete loop stops, scanning rows from position `j`: at the
      first system-owned row, or at the first refused statement, whichever
      comes first; None when every row is processed. */
  function FirstBlock(ds: seq<ResData>, fault: Option<ExecFault>, j: nat): Option<string>
    requires j <= |ds|
    decreases |ds| - j
  {
    if j == |ds| then None
    else if NodeBlock(ds[j], j, fault).Some? then NodeBlock(ds[j], j, fault)
    else FirstBlock(ds, fault, j + 1)
  }

  /** The loop runs to the end exactly when no remaining row is system-owned
      and no remaining statement is refused. */
  lemma {:induction false} FirstBlockNone(ds: seq<ResData>, fault: Option<ExecFault>, j: nat)
    requires j <= |ds|
    ensures FirstBlock(ds, fault, j) == None <==>
      (forall k :: j <= k < |ds| ==> ds[k].sysFlag != "0") &&
      (fault == None || fault.value.node < j || fault.value.node >= |ds|)
    decreases |ds| - j
  {
    if j < |ds| {
      FirstBlockNone(ds, fault, j + 1);
    }
  }

  /** A system-owned row anywhere in the deletion set stops the delete; with
      no refused statement the tag is the system-resource one. */
  lemma {:induction false} SystemRowBlocks(ds: seq<ResData>, fault: Option<ExecFault>, j: nat, k: nat)
    requires j <= k < |ds| && ds[k].sysFlag == "0"
    ensures FirstBlock(ds, fault, j).Some?
    ensures fault == None ==> FirstBlock(ds, fault, j) == Some(ErrForbidSystem)
    decreases k - j
  {
    if j < k && ds[j].sysFlag != "0" {
      SystemRowBlocks(ds, fault, j + 1, k);
    }
  }

  /** The statements a delete issues when it runs to the end. */
  function RowStmts(row: ResData): seq<Stmt>
  {
    [DeleteStmt(RoleRelation, row.resId), DeleteStmt(ThemeRelation, row.resId), DeleteStmt(ResourceRow, row.resId)]
  }

  /** The statements issued for the first `j` rows of `ds`. */
  function ScriptUpTo(ds: seq<ResData>, j: nat): seq<Stmt>
    requires j <= |ds|
  {
    if j == 0 then [] else ScriptUpTo(ds, j - 1) + RowStmts(ds[j - 1])
  }

  function Script(ds: seq<ResData>): seq<Stmt>
  {
    ScriptUpTo(ds, |ds|)
  }

  lemma {:induction false} ScriptUpToShape(ds: seq<ResData>, j: nat)
    requires j <= |ds|
    ensures |ScriptUpTo(ds, j)| == 3 * j
    ensures forall k :: 0 <= k < j ==>
      ScriptUpTo(ds, j)[3 * k] == DeleteStmt(RoleRelation, ds[k].resId) &&
      ScriptUpTo(ds, j)[3 * k + 1] == DeleteStmt(ThemeRelation, ds[k].resId) &&
      ScriptUpTo(ds, j)[3 * k + 2] == DeleteStmt(ResourceRow, ds[k].resId)
  {
    if j > 0 {
      ScriptUpToShape(ds, j - 1);
    }
  }

  /** For N rows a full delete issues 3N statements: for each row in order,
      its role-relation delete, its theme-relation delete, its row delete. */
  lemma ScriptShape(ds: seq<ResData>)
    ensures |Script(ds)| == 3 * |ds|
    ensures forall k :: 0 <= k < |ds| ==>
      Script(ds)[3 * k] == DeleteStmt(RoleRelation, ds[k].resId) &&
      Script(ds)[3 * k + 1] == DeleteStmt(ThemeRelation, ds[k].resId) &&
      Script(ds)[3 * k + 2] == DeleteStmt(ResourceRow, ds[k].resId)
  {
    ScriptUpToShape(ds, |ds|);
  }

  lemma FirstBlockStep(ds: seq<ResData>, fault: Option<ExecFault>, j: nat)
    requires j < |ds|
    ensures NodeBlock(ds[j], j, fault).Some? ==> FirstBlock(ds, fault, j) == NodeBlock(ds[j], j, fault)
    ensures NodeBlock(ds[j], j, fault) == None ==> FirstBlock(ds, fault, j) == FirstBlock(ds, fault, j + 1)
  {
  }

  /** The tables after the first `j` rows of `ds` have each been purged, one
      row at a time. */
  function PurgeUpTo(t: Snapshot, ds: seq<ResData>, j: nat): Snapshot
    requires j <= |ds|
  {
    if j == 0 then t else Purge(PurgeUpTo(t, ds, j - 1), {ds[j - 1].resId})
  }

  /** Purging row by row removes exactly the ids of the rows purged. */
  lemma {:induction false} PurgeUpToIds(t: Snapshot, ds: seq<ResData>, j: nat)
    requires j <= |ds|
    ensures PurgeUpTo(t, ds, j) == Purge(t, IdsOf(ds[..j]))
  {
    if j == 0 {
      PurgeNothing(t);
      assert IdsOf(ds[..0]) == {};
    } else {
      PurgeUpToIds(t, ds, j - 1);
      assert ds[..j] == ds[..j - 1] + [ds[j - 1]];
      PurgeTwice(t, IdsOf(ds[..j - 1]), {ds[j - 1].resId});
      IdsOfAppend(ds[..j - 1], [ds[j - 1]]);
      assert IdsOf([ds[j - 1]]) == {ds[j - 1].resId};
    }
  }

  /** In a forest the root row is processed once, last: no row below it
      carries its id. */
  lemma DeletionSetRootLast(all: seq<ResData>, r: string, rank: Rank)
    requires Forest(all, rank)
    ensures var ds := DeletionSet(all, r, rank);
      && (r in IdsOf(all) ==> ds[|ds| - 1].resId == r)
      && (forall k :: 0 <= k < |ds| - 1 ==> ds[k].resId != r)
  {
    var w := Walk(all, r, 0, rank);
    StartNotBelowItself(all, r, rank);
    var ds := DeletionSet(all, r, rank);
    forall k | 0 <= k < |ds| - 1 ensures ds[k].resId != r {
      assert ds[k] in w;
    }
  }

  /** In a forest a completed delete removes every row below the root, and no
      remaining row has a removed row or the root as its parent. */
  lemma DeleteLeavesNoOrphans(all: seq<ResData>, r: string, rank: Rank)
    requires Forest(all, rank)
    ensures var gone := IdsOf(DeletionSet(all, r, rank));
      && (forall e :: e in all && Descends(all, r, e) ==> e.resId in gone)
      && (forall e :: e in Drop(all, ResKey, gone) ==>
            !Descends(all, r, e) && e.resUpId !in gone && e.resUpId != r)
  {
    var gone := IdsOf(DeletionSet(all, r, rank));
    WalkExact(all, r, rank);
    DropMembers(all, ResKey, gone);
    forall e | e in Drop(all, ResKey, gone)
      ensures !Descends(all, r, e) && e.resUpId !in gone && e.resUpId != r
    {
      RemainingRow(all, r, rank, e);
    }
  }

  lemma RemainingRow(all: seq<ResData>, r: string, rank: Rank, e: ResData)
    requires Forest(all, rank)
    requires e in all && e.resId !in IdsOf(DeletionSet(all, r, rank))
    ensures !Descends(all, r, e) && e.resUpId !in IdsOf(DeletionSet(all, r, rank)) && e.resUpId != r
  {
    var w := Walk(all, r, 0, rank);
    var f := FirstWithId(all, r);
    IdsOfAppend(w, f);
    assert e.resId !in IdsOf(w);
    NotWalkedNotBelow(all, r, rank, e);
    if e.resUpId == r {
      assert IsChain(all, r, [e]);
    }
    assert e.resUpId != r;
    if e.resUpId in IdsOf(w) {
      ParentWalkedChildWalked(all, r, rank, e);
    }
    assert e.resUpId !in IdsOf(w);
    assert f == [] || f == [f[0]];
    assert IdsOf(f) <= {r};
  }

  lemma NotWalkedNotBelow(all: seq<ResData>, r: string, rank: Rank, e: ResData)
    requires Forest(all, rank)
    requires e.resId !in IdsOf(Walk(all, r, 0, rank))
    ensures !Descends(all, r, e)
  {
    if Descends(all, r, e) {
      var c :| IsChain(all, r, c) && c[|c| - 1] == e;
      WalkComplete(all, r, c, rank);
    }
  }

  lemma ParentWalkedChildWalked(all: seq<ResData>, r: string, rank: Rank, e: ResData)
    requires Forest(all, rank) && e in all
    requires e.resUpId in IdsOf(Walk(all, r, 0, rank))
    ensures Descends(all, r, e)
  {
    var w := Walk(all, r, 0, rank);
    var p :| p in w && p.resId == e.resUpId;
    WalkSound(all, r, 0, rank);
    var c :| IsChain(all, r, c) && c[|c| - 1] == p;
    ChainAppend(all, r, c, e);
    assert (c + [e])[|c + [e]| - 1] == e;
  }

  /** Removing rows keeps a forest, and keeps every walk from an id ranked at
      most `top` terminating. */
  lemma DropKeepsForest(all: seq<ResData>, ids: set<string>, top: nat, rank: Rank)
    ensures Ranked(all, rank) ==> Ranked(Drop(all, ResKey, ids), rank)
    ensures RankedFrom(all, top, rank) ==> RankedFrom(Drop(all, ResKey, ids), top, rank)
    ensures NoSelfParent(all) ==> NoSelfParent(Drop(all, ResKey, ids))
  {
    var d := Drop(all, ResKey, ids);
    DropMembers(all, ResKey, ids);
    forall k | 0 <= k < |d| ensures exists m :: 0 <= m < |all| && all[m] == d[k] {
      assert d[k] in all;
    }
  }

  // ---------------------------------------------------------------------
  // Candidate parents

  /** In a forest the candidate-parent list keeps exactly the projected rows
      whose id is not the id of a row below `r`, and keeps the row of `r`. */
  lemma CandidateParentsExact(all: seq<ResData>, r: string, rank: Rank)
    requires Forest(all, rank)
    ensures var kept := Drop(Project(all), NodeKey, IdsOf(Walk(all, r, 0, rank)));
      && (forall n :: n in kept <==>
            n in Project(all) && forall e :: e in all && Descends(all, r, e) ==> e.resId != n.resId)
      && (forall n :: n in Project(all) && n.resId == r ==> n in kept)
  {
    WalkExact(all, r, rank);
    WalkGrounded(all, r, 0, rank);
    StartNotBelowItself(all, r, rank);
    DropMembers(Project(all), NodeKey, IdsOf(Walk(all, r, 0, rank)));
  }

  // ---------------------------------------------------------------------
  // A worked case

  /** Three nodes: A at the top, B under A, C under B.  The rows below A are
      B then C; moving A under C is refused by the cycle check; deleting A
      processes B, C, then A. */
  lemma ThreeLevelExample()
    ensures var all := [Row("A", TopLevel), Row("B", "A"), Row("C", "B")];
            var rank: Rank := id => if id == TopLevel then 3 else if id == "A" then 2 else if id == "B" then 1 else 0;
            && Forest(all, rank)
            && Walk(all, "A", 0, rank) == [Row("B", "A"), Row("C", "B")]
            && "C" in IdsOf(Walk(all, "A", 0, rank))
            && DeletionSet(all, "A", rank) == [Row("B", "A"), Row("C", "B"), Row("A", TopLevel)]
  {
    var all := [Row("A", TopLevel), Row("B", "A"), Row("C", "B")];
    var rank: Rank := id => if id == TopLevel then 3 else if id == "A" then 2 else if id == "B" then 1 else 0;
    assert Forest(all, rank);
    assert Walk(all, "C", 3, rank) == [];
    assert Walk(all, "C", 2, rank) == [];
    assert Walk(all, "C", 1, rank) == [];
    assert Walk(all, "C", 0, rank) == [];
    assert Walk(all, "B", 3, rank) == [];
    assert Walk(all, "B", 2, rank) == [Row("C", "B")];
    assert Walk(all, "B", 1, rank) == [Row("C", "B")];
    assert Walk(all, "B", 0, rank) == [Row("C", "B")];
    assert Walk(all, "A", 3, rank) == [];
    assert Walk(all, "A", 2, rank) == [];
    assert Walk(all, "A", 1, rank) == [Row("B", "A"), Row("C", "B")];
    assert Walk(all, "A", 0, rank) == [Row("B", "A"), Row("C", "B")];
    assert Row("C", "B") in Walk(all, "A", 0, rank);
  }

  /** Outside a forest, "listed by the walk" and "below" part ways: `r` has
      children `a`, a self-parented row `r`, and `b`.  Deleting `r` processes
      `a` and `r` only, so `b` stays in the table although it lies below `r`
      and its parent is gone; and `b` is still offered as a parent for `r`. */
  lemma SelfParentOrphansSibling()
    ensures var all := [Row("a", "r"), Row("r", "r"), Row("b", "r")];
            var rank: Rank := id => if id == "r" then 1 else 0;
            && Descends(all, "r", Row("b", "r"))
            && DeletionSet(all, "r", rank) == [Row("a", "r"), Row("r", "r"), Row("r", "r")]
            && Drop(all, ResKey, IdsOf(DeletionSet(all, "r", rank))) == [Row("b", "r")]
            && Drop(Project(all), NodeKey, IdsOf(Walk(all, "r", 0, rank))) == [ResNodeData("b", "", "r")]
  {
    SelfParentHidesSibling();
    OrphanDeletionSet();
    OrphanLeftBehind();
    OrphanStillCandidate();
  }

  /** The deletion set from `r` in the orphan case. */
  lemma OrphanDeletionSet()
    ensures var all := [Row("a", "r"), Row("r", "r"), Row("b", "r")];
            var rank: Rank := id => if id == "r" then 1 else 0;
            DeletionSet(all, "r", rank) == [Row("a", "r"), Row("r", "r"), Row("r", "r")]
  {
    SelfParentHidesSibling();
  }

  /** Purging that deletion set leaves `b`. */
  lemma OrphanLeftBehind()
    ensures Drop([Row("a", "r"), Row("r", "r"), Row("b", "r")], ResKey,
                 IdsOf([Row("a", "r"), Row("r", "r"), Row("r", "r")])) == [Row("b", "r")]
  {
    assert IdsOf([Row("a", "r"), Row("r", "r"), Row("r", "r")]) == {"a", "r"};
    DropAllButLast([Row("a", "r"), Row("r", "r"), Row("b", "r")], ResKey, {"a", "r"});
  }

  /** Dropping the walked ids from the projection keeps `b`. */
  lemma OrphanStillCandidate()
    ensures Drop(Project([Row("a", "r"), Row("r", "r"), Row("b", "r")]), NodeKey,
                 IdsOf([Row("a", "r"), Row("r", "r")])) == [ResNodeData("b", "", "r")]
  {
    assert IdsOf([Row("a", "r"), Row("r", "r")]) == {"a", "r"};
    var p := [ResNodeData("a", "", "r"), ResNodeData("r", "", "r"), ResNodeData("b", "", "r")];
    assert Project([Row("a", "r"), Row("r", "r"), Row("b", "r")]) == p;
    DropAllButLast(p, NodeKey, {"a", "r"});
  }
}
