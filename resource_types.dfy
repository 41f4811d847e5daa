/** Records of the resource table, the projection used for candidate parents,
    the result tags of the mutation operations, and the filters shared by the
    repository reads and the cascading delete. */
module ResourceTypes {

  /** One row of the resource table as the repository reads it. */
  datatype ResData = ResData(
    resId: string,
    resName: string,
    resAttr: string,
    resAttrDesc: string,
    resUpId: string,
    resType: string,
    resTypeDesc: string,
    sysFlag: string,
    innerFlag: string,
    serviceCd: string)

  /** The id/name/parent projection offered as candidate parents. */
  datatype ResNodeData = ResNodeData(resId: string, resName: string, resUpId: string)

  /** Go's `error` result: nil, an `errors.New(tag)` value carrying the tag,
      or an error handed up unchanged from the database adapter. */
  datatype Error = Nil | Tagged(text: string) | StorageError

  datatype Option<+T> = None | Some(value: T)

  /** The parent id of a top-level node. */
  const TopLevel := "-1"

  // Result tags, as the operations return them.
  const Success := "success"
  const ErrResId := "error_resource_res_id"
  const ErrDescEmpty := "error_resource_desc_empty"
  const ErrType := "error_resource_type"
  const ErrUpId := "error_resource_up_id"
  const ErrAdd := "error_resource_add"
  const ErrQuery := "error_resource_query"
  const ErrBegin := "error_resource_begin"
  const ErrForbidSystem := "error_resource_forbid_system_resource"
  const ErrRoleRelation := "error_resource_role_relation"
  const ErrThemeRelation := "error_resource_theme_relation"
  const ErrDelete := "error_resource_delete"
  const ErrCommit := "error_resource_commit"
  const ErrUpdateSame := "error_resource_update_same"
  const ErrUpdate := "error_resource_update"

  /** The three tables the engine writes: resource rows, and the resource-id
      column of the role-relation and theme-relation tables. */
  datatype Snapshot = Snapshot(res: seq<ResData>, roleRel: seq<string>, themeRel: seq<string>)

  function ResKey(r: ResData): string { r.resId }
  function NodeKey(n: ResNodeData): string { n.resId }
  function RelKey(id: string): string { id }

  /** The ids of a list of rows. */
  function IdsOf(s: seq<ResData>): set<string>
  {
    set e | e in s :: e.resId
  }

  lemma IdsOfAppend(a: seq<ResData>, b: seq<ResData>)
    ensures IdsOf(a + b) == IdsOf(a) + IdsOf(b)
  {
    assert forall e :: e in a + b <==> e in a || e in b;
  }

  /** The rows of `s` whose key is not in `ids`, in their original order:
      what a `DELETE ... WHERE id = ?` per id, or a skip-if-in-map loop, leaves. */
  function Drop<T>(s: seq<T>, key: T -> string, ids: set<string>): seq<T>
  {
    if s == [] then []
    else
      var init, last := s[..|s| - 1], s[|s| - 1];
      assert s == init + [last];
      if key(last) in ids then Drop(init, key, ids) else Drop(init, key, ids) + [last]
  }

  /** Dropping keeps exactly the elements whose key is not in `ids`. */
  lemma {:induction false} DropMembers<T(!new)>(s: seq<T>, key: T -> string, ids: set<string>)
    ensures forall x :: x in Drop(s, key, ids) <==> x in s && key(x) !in ids
  {
    if s != [] {
      var init, last := s[..|s| - 1], s[|s| - 1];
      assert s == init + [last];
      DropMembers(init, key, ids);
    }
  }

  /** Dropping keeps every other row as often as it occurred. */
  lemma {:induction false} DropCounts<T(!new)>(s: seq<T>, key: T -> string, ids: set<string>)
    ensures forall x :: multiset(Drop(s, key, ids))[x] == if key(x) in ids then 0 else multiset(s)[x]
  {
    if s != [] {
      var init, last := s[..|s| - 1], s[|s| - 1];
      assert s == init + [last];
      DropCounts(init, key, ids);
    }
  }

  lemma {:induction false} DropTwice<T(!new)>(s: seq<T>, key: T -> string, a: set<string>, b: set<string>)
    ensures Drop(Drop(s, key, a), key, b) == Drop(s, key, a + b)
  {
    if s != [] {
      var init, last := s[..|s| - 1], s[|s| - 1];
      DropTwice(init, key, a, b);
      if key(last) !in a {
        var d := Drop(init, key, a) + [last];
        assert d[..|d| - 1] == Drop(init, key, a);
      }
    }
  }

  lemma {:induction false} DropNothing<T(!new)>(s: seq<T>, key: T -> string)
    ensures Drop(s, key, {}) == s
  {
    if s != [] {
      DropNothing(s[..|s| - 1], key);
      assert s == s[..|s| - 1] + [s[|s| - 1]];
    }
  }

  /** When every key is dropped, nothing stays. */
  lemma {:induction false} DropAll<T(!new)>(s: seq<T>, key: T -> string, ids: set<string>)
    requires forall k :: 0 <= k < |s| ==> key(s[k]) in ids
    ensures Drop(s, key, ids) == []
  {
    if s != [] {
      DropAll(s[..|s| - 1], key, ids);
    }
  }

  /** When every key but the last is dropped, only the last element stays. */
  lemma DropAllButLast<T(!new)>(s: seq<T>, key: T -> string, ids: set<string>)
    requires s != [] && key(s[|s| - 1]) !in ids
    requires forall k :: 0 <= k < |s| - 1 ==> key(s[k]) in ids
    ensures Drop(s, key, ids) == [s[|s| - 1]]
  {
    DropAll(s[..|s| - 1], key, ids);
  }

  /** Dropping from one more element of a prefix. */
  lemma DropPrefixStep<T(!new)>(s: seq<T>, key: T -> string, ids: set<string>, k: nat)
    requires k < |s|
    ensures Drop(s[..k + 1], key, ids) == if key(s[k]) in ids then Drop(s[..k], key, ids) else Drop(s[..k], key, ids) + [s[k]]
  {
    assert s[..k + 1][..k] == s[..k];
  }

  /** Removes every row of the given ids from all three tables. */
  function Purge(t: Snapshot, ids: set<string>): Snapshot
  {
    Snapshot(Drop(t.res, ResKey, ids), Drop(t.roleRel, RelKey, ids), Drop(t.themeRel, RelKey, ids))
  }

  lemma PurgeTwice(t: Snapshot, a: set<string>, b: set<string>)
    ensures Purge(Purge(t, a), b) == Purge(t, a + b)
  {
    DropTwice(t.res, ResKey, a, b);
    DropTwice(t.roleRel, RelKey, a, b);
    DropTwice(t.themeRel, RelKey, a, b);
  }

  lemma PurgeNothing(t: Snapshot)
    ensures Purge(t, {}) == t
  {
    DropNothing(t.res, ResKey);
    DropNothing(t.roleRel, RelKey);
    DropNothing(t.themeRel, RelKey);
  }

  /** The first row whose id is `id`, as a list of at most one row. */
  function FirstWithId(all: seq<ResData>, id: string): (r: seq<ResData>)
    ensures |r| <= 1
    ensures r == [] <==> id !in IdsOf(all)
    ensures r != [] ==> r[0] in all && r[0].resId == id
  {
    if all == [] then []
    else if all[0].resId == id then [all[0]]
    else
      assert all == [all[0]] + all[1..];
      FirstWithId(all[1..], id)
  }

  lemma FirstWithIdFrom(all: seq<ResData>, id: string, i: nat)
    requires i < |all|
    ensures FirstWithId(all[i..], id) == if all[i].resId == id then [all[i]] else FirstWithId(all[i + 1..], id)
  {
    assert all[i..][1..] == all[i + 1..];
  }

  /** The rows whose id is `id`, in their original order. */
  function RowsWithId(all: seq<ResData>, id: string): (r: seq<ResData>)
    ensures forall e :: e in r <==> e in all && e.resId == id
    ensures forall e :: multiset(r)[e] == if e.resId == id then multiset(all)[e] else 0
  {
    if all == [] then []
    else
      var init, last := all[..|all| - 1], all[|all| - 1];
      assert all == init + [last];
      if last.resId == id then RowsWithId(init, id) + [last] else RowsWithId(init, id)
  }

  /** The id/name/parent projection of every row, in order. */
  function Project(all: seq<ResData>): (p: seq<ResNodeData>)
    ensures |p| == |all|
    ensures forall k :: 0 <= k < |all| ==> p[k] == ResNodeData(all[k].resId, all[k].resName, all[k].resUpId)
  {
    seq(|all|, k requires 0 <= k < |all| => ResNodeData(all[k].resId, all[k].resName, all[k].resUpId))
  }
}
