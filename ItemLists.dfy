/**
 * The list edits the reducers perform on arrays of items: `filter` by id, `filter`
 * by a list of ids, and the `map` that merges an update into the entries of one id.
 */
module ItemLists {
  import opened DataRoom

  /** `list.filter(item => item.id !== id)`. */
  function WithoutId(s: seq<Item>, id: string): (r: seq<Item>)
    ensures forall x :: x in r <==> x in s && x.id != id
    ensures forall x :: multiset(r)[x] == if x.id == id then 0 else multiset(s)[x]
  {
    if s == [] then []
    else
      assert s == [s[0]] + s[1..];
      (if s[0].id == id then [] else [s[0]]) + WithoutId(s[1..], id)
  }

  /** `list.filter(item => !ids.includes(item.id))`. */
  function WithoutIds(s: seq<Item>, ids: seq<string>): (r: seq<Item>)
    ensures forall x :: x in r <==> x in s && x.id !in ids
    ensures forall x :: multiset(r)[x] == if x.id in ids then 0 else multiset(s)[x]
  {
    if s == [] then []
    else
      assert s == [s[0]] + s[1..];
      (if s[0].id in ids then [] else [s[0]]) + WithoutIds(s[1..], ids)
  }

  /**
   * `list.map(item => item.id === id ? { ...item, ...updates, updatedAt: new Date() } : item)`,
   * with `now` the tick `new Date()` reads.
   */
  function UpdateWhereId(s: seq<Item>, id: string, updates: Patch, now: nat): (r: seq<Item>)
    ensures |r| == |s|
    ensures forall i :: 0 <= i < |s| && s[i].id != id ==> r[i] == s[i]
    ensures forall i :: 0 <= i < |s| && s[i].id == id ==>
      && r[i].Folder? == s[i].Folder? && r[i].updatedAt == now
      && r[i].id == Pick(updates.id, id) && r[i].name == Pick(updates.name, s[i].name)
      && r[i].parentId == Pick(updates.parentId, s[i].parentId)
      && r[i].createdAt == Pick(updates.createdAt, s[i].createdAt)
      && (r[i].File? ==>
            && r[i].mimeType == Pick(updates.mimeType, s[i].mimeType)
            && r[i].size == Pick(updates.size, s[i].size)
            && r[i].content == Pick(updates.content, s[i].content))
  {
    seq(|s|, i requires 0 <= i < |s| =>
      if s[i].id == id then Apply(s[i], updates).(updatedAt := now) else s[i])
  }

  /** `a` is `b` with some entries left out, the others kept in their order. */
  predicate IsSubsequence(a: seq<Item>, b: seq<Item>)
    decreases |b|
  {
    if a == [] then true
    else if b == [] then false
    else if a[0] == b[0] then IsSubsequence(a[1..], b[1..])
    else IsSubsequence(a, b[1..])
  }

  /** Removing by id keeps the remaining entries in their original order. */
  lemma {:induction false} WithoutIdKeepsOrder(s: seq<Item>, id: string)
    ensures IsSubsequence(WithoutId(s, id), s)
  {
    if s != [] {
      var rest := WithoutId(s[1..], id);
      WithoutIdKeepsOrder(s[1..], id);
      if s[0].id == id {
        assert WithoutId(s, id) == rest;
        if rest != [] {
          assert rest[0] in rest;
          assert rest[0] != s[0];
        }
      } else {
        assert WithoutId(s, id) == [s[0]] + rest;
        assert ([s[0]] + rest)[1..] == rest;
      }
    }
  }

  /** Removing by a list of ids keeps the remaining entries in their original order. */
  lemma {:induction false} WithoutIdsKeepsOrder(s: seq<Item>, ids: seq<string>)
    ensures IsSubsequence(WithoutIds(s, ids), s)
  {
    if s != [] {
      var rest := WithoutIds(s[1..], ids);
      WithoutIdsKeepsOrder(s[1..], ids);
      if s[0].id in ids {
        assert WithoutIds(s, ids) == rest;
        if rest != [] {
          assert rest[0] in rest;
          assert rest[0] != s[0];
        }
      } else {
        assert WithoutIds(s, ids) == [s[0]] + rest;
        assert ([s[0]] + rest)[1..] == rest;
      }
    }
  }

  /** Removing the ids of a one-element list is removing that id. */
  lemma {:induction false} WithoutSingleId(s: seq<Item>, id: string)
    ensures WithoutIds(s, [id]) == WithoutId(s, id)
  {
    if s != [] {
      WithoutSingleId(s[1..], id);
    }
  }

  /** Filtering out an id no entry carries changes nothing. */
  lemma {:induction false} WithoutAbsentId(s: seq<Item>, id: string)
    requires forall x :: x in s ==> x.id != id
    ensures WithoutId(s, id) == s
  {
    if s != [] {
      assert s[0] in s;
      forall x | x in s[1..] ensures x.id != id {
        assert x in s;
      }
      WithoutAbsentId(s[1..], id);
      assert WithoutId(s, id) == [s[0]] + s[1..];
    }
  }

  /** Deleting the same id twice is deleting it once. */
  lemma WithoutIdIdempotent(s: seq<Item>, id: string)
    ensures WithoutId(WithoutId(s, id), id) == WithoutId(s, id)
  {
    WithoutAbsentId(WithoutId(s, id), id);
  }
}
