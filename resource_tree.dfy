/** The depth-first descendant walk over an in-memory list of resource rows.

    The walk follows `resUpId` links downwards.  It guards only against a row
    that is its own parent, so it terminates only when the parent links it
    follows have no longer cycle; a cycle elsewhere in the table is never
    visited.  That condition is stated with a ranking: a ghost map from ids to
    naturals under which every row the walk can reach, and that is not its own
    parent, ranks strictly below its parent. */
module ResourceTree {
  import opened ResourceTypes

  type Rank = string -> nat

  /** Every row that is not its own parent ranks below its parent: the parent
      links have no cycle of length two or more. */
  ghost predicate Ranked(all: seq<ResData>, rank: Rank)
  {
    forall k :: 0 <= k < |all| && all[k].resId != all[k].resUpId ==>
      rank(all[k].resId) < rank(all[k].resUpId)
  }

  /** The walk from an id ranked `top` terminates: every row that is not its
      own parent and whose parent ranks at most `top` ranks below its parent.
      The walk only ever visits ids ranked at most `top`, so rows hanging off
      higher-ranked ids, such as a cycle it never reaches, are unconstrained. */
  ghost predicate RankedFrom(all: seq<ResData>, top: nat, rank: Rank)
  {
    forall k :: 0 <= k < |all| && all[k].resId != all[k].resUpId && rank(all[k].resUpId) <= top ==>
      rank(all[k].resId) < rank(all[k].resUpId)
  }

  /** No row names itself as its parent. */
  ghost predicate NoSelfParent(all: seq<ResData>)
  {
    forall k :: 0 <= k < |all| ==> all[k].resId != all[k].resUpId
  }

  /** A forest: no parent cycle of any length. */
  ghost predicate Forest(all: seq<ResData>, rank: Rank)
  {
    Ranked(all, rank) && NoSelfParent(all)
  }

  /** The rows the walk appends while it scans `all[i..]` for children of `r`:
      each child is appended; a child that is its own parent ends the scan of
      this level; any other child is walked into before the scan goes on. */
  ghost function Walk(all: seq<ResData>, r: string, i: nat, rank: Rank): (w: seq<ResData>)
    requires RankedFrom(all, rank(r), rank) && i <= |all|
    ensures forall e :: e in w ==> e in all
    decreases rank(r), |all| - i
  {
    if i == |all| then []
    else if all[i].resUpId != r then Walk(all, r, i + 1, rank)
    else if all[i].resId == all[i].resUpId then [all[i]]
    else [all[i]] + Walk(all, all[i].resId, 0, rank) + Walk(all, r, i + 1, rank)
  }

  /** Appends to `rst` every row found below `resId`, depth first, in the
      order of `all` at each level. */
  method Dfs(all: seq<ResData>, resId: string, rst: seq<ResData>, ghost rank: Rank) returns (out: seq<ResData>)
    requires RankedFrom(all, rank(resId), rank)
    ensures out == rst + Walk(all, resId, 0, rank)
    decreases rank(resId)
  {
    out := rst;
    var i := 0;
    while i < |all|
      invariant 0 <= i <= |all|
      invariant out + Walk(all, resId, i, rank) == rst + Walk(all, resId, 0, rank)
    {
      var val := all[i];
      if val.resUpId == resId {
        out := out + [val];
        if val.resId == val.resUpId {
          return;
        }
        ghost var before := out;
        out := Dfs(all, val.resId, out, rank);
        assert out + Walk(all, resId, i + 1, rank) == before + (Walk(all, val.resId, 0, rank) + Walk(all, resId, i + 1, rank));
      }
      i := i + 1;
    }
  }

  // ---------------------------------------------------------------------
  // Descent by parent chains: the reference definition of "below".

  /** `c` is a chain of rows of `all` hanging below `r`: the first row's
      parent is `r` and each later row's parent is the row before it. */
  ghost predicate IsChain(all: seq<ResData>, r: string, c: seq<ResData>)
  {
    && |c| > 0
    && c[0].resUpId == r
    && (forall k :: 0 <= k < |c| ==> c[k] in all)
    && (forall k :: 0 < k < |c| ==> c[k].resUpId == c[k - 1].resId)
  }

  /** `e` is a row of `all` reachable from `r` by following parent links down. */
  ghost predicate Descends(all: seq<ResData>, r: string, e: ResData)
  {
    exists c :: IsChain(all, r, c) && c[|c| - 1] == e
  }

  lemma ChainPrepend(all: seq<ResData>, r: string, x: ResData, c: seq<ResData>)
    requires x in all && x.resUpId == r && IsChain(all, x.resId, c)
    ensures IsChain(all, r, [x] + c)
  {
    var d := [x] + c;
    forall k | 0 < k < |d| ensures d[k].resUpId == d[k - 1].resId {
      assert d[k] == c[k - 1];
    }
  }

  lemma ChainAppend(all: seq<ResData>, r: string, c: seq<ResData>, e: ResData)
    requires IsChain(all, r, c) && e in all && e.resUpId == c[|c| - 1].resId
    ensures IsChain(all, r, c + [e])
  {
  }

  // ---------------------------------------------------------------------
  // What the walk appends.

  /** Each appended row's parent is the start id or the id of a row appended
      before it. */
  ghost predicate Grounded(r: string, w: seq<ResData>)
  {
    forall k {:trigger ParentListed(w, k)} :: 0 <= k < |w| ==> w[k].resUpId == r || ParentListed(w, k)
  }

  /** The parent of `w[k]` is the id of a row listed before it. */
  ghost predicate ParentListed(w: seq<ResData>, k: nat)
    requires k < |w|
  {
    exists j :: 0 <= j < k && w[j].resId == w[k].resUpId
  }

  lemma GroundedConcat(r: string, a: seq<ResData>, b: seq<ResData>)
    requires Grounded(r, a) && Grounded(r, b)
    ensures Grounded(r, a + b)
  {
    var w := a + b;
    forall k | 0 <= k < |w| && w[k].resUpId != r
      ensures ParentListed(w, k)
    {
      if k < |a| {
        assert w[k] == a[k] && ParentListed(a, k);
        var j :| 0 <= j < k && a[j].resId == a[k].resUpId;
        assert w[j] == a[j];
      } else {
        assert w[k] == b[k - |a|] && ParentListed(b, k - |a|);
        var j :| 0 <= j < k - |a| && b[j].resId == b[k - |a|].resUpId;
        assert w[j + |a|] == b[j];
      }
    }
  }

  lemma GroundedBelow(r: string, x: ResData, w: seq<ResData>)
    requires x.resUpId == r && Grounded(x.resId, w)
    ensures Grounded(r, [x] + w)
  {
    var v := [x] + w;
    forall k | 0 < k < |v| && v[k].resUpId != r
      ensures ParentListed(v, k)
    {
      assert v[k] == w[k - 1];
      if w[k - 1].resUpId == x.resId {
        assert v[0].resId == v[k].resUpId;
      } else {
        assert ParentListed(w, k - 1);
        var j :| 0 <= j < k - 1 && w[j].resId == w[k - 1].resUpId;
        assert v[j + 1] == w[j];
      }
    }
  }

  /** Every row the walk appends comes from `all`, and its parent is the start
      id or the id of a row appended earlier. */
  lemma {:induction false} WalkGrounded(all: seq<ResData>, r: string, i: nat, rank: Rank)
    requires RankedFrom(all, rank(r), rank) && i <= |all|
    ensures forall e :: e in Walk(all, r, i, rank) ==> e in all
    ensures Grounded(r, Walk(all, r, i, rank))
    decreases rank(r), |all| - i
  {
    if i == |all| {
    } else if all[i].resUpId != r {
      WalkGrounded(all, r, i + 1, rank);
    } else if all[i].resId == all[i].resUpId {
    } else {
      var x := all[i];
      WalkGrounded(all, x.resId, 0, rank);
      WalkGrounded(all, r, i + 1, rank);
      GroundedBelow(r, x, Walk(all, x.resId, 0, rank));
      GroundedConcat(r, [x] + Walk(all, x.resId, 0, rank), Walk(all, r, i + 1, rank));
    }
  }

  /** Every appended row ranks below the start id, except a row that is its
      own parent with the start id as its id. */
  lemma {:induction false} WalkRanks(all: seq<ResData>, r: string, i: nat, rank: Rank)
    requires RankedFrom(all, rank(r), rank) && i <= |all|
    ensures forall e :: e in Walk(all, r, i, rank) ==>
      rank(e.resId) < rank(r) || (e.resId == r && e.resUpId == r)
    decreases rank(r), |all| - i
  {
    if i == |all| {
    } else if all[i].resUpId != r {
      WalkRanks(all, r, i + 1, rank);
    } else if all[i].resId == all[i].resUpId {
    } else {
      WalkRanks(all, all[i].resId, 0, rank);
      WalkRanks(all, r, i + 1, rank);
    }
  }

  /** The start row is never appended, unless it is its own parent. */
  lemma StartNotBelowItself(all: seq<ResData>, r: string, rank: Rank)
    requires RankedFrom(all, rank(r), rank)
    ensures forall e :: e in Walk(all, r, 0, rank) && e.resId == r ==> e.resUpId == r
    ensures NoSelfParent(all) ==> r !in IdsOf(Walk(all, r, 0, rank))
  {
    WalkRanks(all, r, 0, rank);
    WalkGrounded(all, r, 0, rank);
  }

  /** Soundness: everything the walk appends lies below the start id. */
  lemma {:induction false} WalkSound(all: seq<ResData>, r: string, i: nat, rank: Rank)
    requires RankedFrom(all, rank(r), rank) && i <= |all|
    ensures forall e :: e in Walk(all, r, i, rank) ==> Descends(all, r, e)
    decreases rank(r), |all| - i
  {
    if i == |all| {
    } else if all[i].resUpId != r {
      WalkSound(all, r, i + 1, rank);
    } else if all[i].resId == all[i].resUpId {
      assert IsChain(all, r, [all[i]]);
    } else {
      var x := all[i];
      WalkSound(all, x.resId, 0, rank);
      WalkSound(all, r, i + 1, rank);
      assert IsChain(all, r, [x]);
      forall e | e in Walk(all, x.resId, 0, rank) ensures Descends(all, r, e) {
        var c :| IsChain(all, x.resId, c) && c[|c| - 1] == e;
        ChainPrepend(all, r, x, c);
        assert ([x] + c)[|[x] + c| - 1] == e;
      }
    }
  }

  /** With no self-parented row, the scan of a level from `i` reaches every
      child of `r` at position `j >= i`, and everything below that child. */
  lemma {:induction false} ChildIncluded(all: seq<ResData>, r: string, i: nat, j: nat, rank: Rank)
    requires Ranked(all, rank) && NoSelfParent(all)
    requires i <= j < |all| && all[j].resUpId == r
    ensures all[j] in Walk(all, r, i, rank)
    ensures forall e :: e in Walk(all, all[j].resId, 0, rank) ==> e in Walk(all, r, i, rank)
    decreases j - i
  {
    assert all[i].resId != all[i].resUpId;
    if i < j {
      ChildIncluded(all, r, i + 1, j, rank);
    }
  }

  /** Completeness: with no self-parented row, the end of every chain below
      `r` is appended by the walk from `r`. */
  lemma {:induction false} WalkComplete(all: seq<ResData>, r: string, c: seq<ResData>, rank: Rank)
    requires Ranked(all, rank) && NoSelfParent(all) && IsChain(all, r, c)
    ensures c[|c| - 1] in Walk(all, r, 0, rank)
    decreases |c|
  {
    var x := c[0];
    assert x in all;
    var j :| 0 <= j < |all| && all[j] == x;
    ChildIncluded(all, r, 0, j, rank);
    if |c| > 1 {
      var rest := c[1..];
      assert forall k :: 0 < k < |rest| ==> rest[k] == c[k + 1];
      assert IsChain(all, x.resId, rest);
      WalkComplete(all, x.resId, rest, rank);
      assert rest[|rest| - 1] == c[|c| - 1];
    }
  }

  /** In a forest the walk appends exactly the rows below the start id. */
  lemma WalkExact(all: seq<ResData>, r: string, rank: Rank)
    requires Forest(all, rank)
    ensures forall e :: e in Walk(all, r, 0, rank) <==> Descends(all, r, e)
  {
    WalkSound(all, r, 0, rank);
    forall e | Descends(all, r, e) ensures e in Walk(all, r, 0, rank) {
      var c :| IsChain(all, r, c) && c[|c| - 1] == e;
      WalkComplete(all, r, c, rank);
    }
  }

  /** A child of `r` that is its own parent ends the scan of that level: it is
      the last row the level appends, so later siblings are not visited. */
  lemma {:induction false} SelfParentEndsLevel(all: seq<ResData>, r: string, i: nat, j: nat, rank: Rank)
    requires RankedFrom(all, rank(r), rank) && i <= j < |all|
    requires all[j].resUpId == r && all[j].resId == r
    requires forall k :: i <= k < j && all[k].resUpId == r ==> all[k].resId != r
    ensures Walk(all, r, i, rank) != []
    ensures Walk(all, r, i, rank)[|Walk(all, r, i, rank)| - 1] == all[j]
    decreases j - i
  {
    if i < j {
      SelfParentEndsLevel(all, r, i + 1, j, rank);
    }
  }

  function Row(id: string, up: string): ResData
  {
    ResData(id, "", "", "", up, "", "", "", "", "")
  }

  /** A concrete case: `r` has children `a`, a self-parented row `r`, and `b`,
      in that order.  The walk from `r` appends `a` and the self-parented row,
      and never `b`, although `b` lies below `r`. */
  lemma SelfParentHidesSibling()
    ensures var all := [Row("a", "r"), Row("r", "r"), Row("b", "r")];
            var rank: Rank := id => if id == "r" then 1 else 0;
            Ranked(all, rank) &&
            Walk(all, "r", 0, rank) == [Row("a", "r"), Row("r", "r")] &&
            Descends(all, "r", Row("b", "r"))
  {
    var all := [Row("a", "r"), Row("r", "r"), Row("b", "r")];
    var rank: Rank := id => if id == "r" then 1 else 0;
    assert Ranked(all, rank);
    assert Walk(all, "a", 3, rank) == [];
    assert Walk(all, "a", 2, rank) == [];
    assert Walk(all, "a", 1, rank) == [];
    assert Walk(all, "a", 0, rank) == [];
    assert Walk(all, "r", 1, rank) == [Row("r", "r")];
    assert IsChain(all, "r", [Row("b", "r")]);
  }

  /** A cycle the walk never reaches does not stop it: `x` and `y` are each
      other's parent, no ranking orders the whole table, and the walk from an
      unrelated `z` still ends, with nothing below `z`. */
  lemma UnreachedCycleIgnored()
    ensures var all := [Row("x", "y"), Row("y", "x")];
            var rank: Rank := id => if id == "z" then 0 else 1;
            RankedFrom(all, rank("z"), rank) &&
            Walk(all, "z", 0, rank) == [] &&
            forall rank2: Rank :: !Ranked(all, rank2)
  {
    var all := [Row("x", "y"), Row("y", "x")];
    var rank: Rank := id => if id == "z" then 0 else 1;
    assert RankedFrom(all, rank("z"), rank);
    assert Walk(all, "z", 1, rank) == [];
    assert all[0].resId != all[0].resUpId && all[1].resId != all[1].resUpId;
  }

  /** A walk that would enter a cycle has no ranking: with x and p each
      other's parent, no ranking supports the walk from x, which the source
      would follow until the stack runs out. */
  lemma CycleFromStartUnranked(rank: Rank)
    ensures !RankedFrom([Row("x", "p"), Row("p", "x")], rank("x"), rank)
  {
    var all := [Row("x", "p"), Row("p", "x")];
    assert all[0].resId != all[0].resUpId && all[1].resId != all[1].resUpId;
  }
}
