/**
 * What `groupTodos` (src/utils/groups.ts) promises about its result: every
 * item lands in exactly one group, the group of its key; ids are unique; no
 * group is empty; the item total is kept; the running timestamps are the
 * members' maximum and minimum; the groups are in the requested order; and
 * subgrouping goes exactly one level deep.
 */
module GroupProperties {
  import opened Options
  import opened Tags
  import opened Sorting
  import opened Groups

  // ---------------------------------------------------------------------------
  // Counting in sequences.

  /** A value occurs at most once in a sequence without repeats. */
  lemma {:induction false} CountInDistinct<T>(a: seq<T>, x: T)
    requires forall i, j :: 0 <= i < j < |a| ==> a[i] != a[j]
    ensures multiset(a)[x] <= 1
  {
    if a != [] {
      var init, last := a[..|a| - 1], a[|a| - 1];
      CountInDistinct(init, x);
      assert a == init + [last];
      if x == last {
        assert forall k :: 0 <= k < |init| ==> init[k] == a[k];
        assert x !in init;
      }
    }
  }

  /** A value at two positions occurs at least twice. */
  lemma CountTwo<T>(b: seq<T>, i: int, j: int)
    requires 0 <= i < j < |b| && b[i] == b[j]
    ensures multiset(b)[b[i]] >= 2
  {
    assert b == b[..j] + b[j..];
    assert b[..j][i] == b[i];
    assert b[j..][0] == b[j];
  }

  /** A permutation of a sequence without repeats has no repeats. */
  lemma DistinctPermutation<T>(a: seq<T>, b: seq<T>)
    requires multiset(a) == multiset(b)
    requires forall i, j :: 0 <= i < j < |a| ==> a[i] != a[j]
    ensures forall i, j :: 0 <= i < j < |b| ==> b[i] != b[j]
  {
    forall i, j | 0 <= i < j < |b| ensures b[i] != b[j] {
      if b[i] == b[j] {
        CountTwo(b, i, j);
        CountInDistinct(a, b[i]);
      }
    }
  }

  // ---------------------------------------------------------------------------
  // The two passes after the sort, position by position.

  lemma {:induction false} MapGroupsAt(gs: seq<TodoGroup>, f: TodoGroup -> TodoGroup)
    ensures |MapGroups(gs, f)| == |gs|
    ensures forall i :: 0 <= i < |gs| ==> MapGroups(gs, f)[i] == f(gs[i])
  {
    if gs != [] {
      MapGroupsAt(gs[..|gs| - 1], f);
    }
  }

  // ---------------------------------------------------------------------------
  // The sorted groups are the collected groups, reordered.

  /** Collected groups are pairwise different, since their ids are. */
  lemma CollectedDistinct(items: seq<TodoItem>, axis: GroupBy)
    ensures forall i, j :: 0 <= i < j < |Collected(items, axis)| ==> Collected(items, axis)[i] != Collected(items, axis)[j]
  {
    KeysDistinct(items, axis);
    var c := Collected(items, axis);
    forall i, j | 0 <= i < j < |c| ensures c[i] != c[j] {
      assert c[i].id == Keys(items, axis)[i] && c[j].id == Keys(items, axis)[j];
    }
  }

  /** Each sorted group is the collected group of its own id. */
  lemma SortedGroupIsGroupFor(items: seq<TodoItem>, axis: GroupBy, sortGroups: SortDirection,
                              strLe: (string, string) -> bool, i: int)
    requires 0 <= i < |SortedGroups(items, axis, sortGroups, strLe)|
    ensures SortedGroups(items, axis, sortGroups, strLe)[i].id in Keys(items, axis)
    ensures SortedGroups(items, axis, sortGroups, strLe)[i]
         == GroupFor(items, SortedGroups(items, axis, sortGroups, strLe)[i].id, axis)
  {
    var c, s := Collected(items, axis), SortedGroups(items, axis, sortGroups, strLe);
    InsertionSortPermutes(c, GroupOrdering(sortGroups, strLe));
    assert s[i] in multiset(s);
    assert s[i] in c;
    var p :| 0 <= p < |c| && c[p] == s[i];
  }

  /** Every key has a sorted group. */
  lemma SortedGroupsCoverKeys(items: seq<TodoItem>, axis: GroupBy, sortGroups: SortDirection,
                              strLe: (string, string) -> bool, k: string)
    requires k in Keys(items, axis)
    ensures exists i :: 0 <= i < |SortedGroups(items, axis, sortGroups, strLe)|
                     && SortedGroups(items, axis, sortGroups, strLe)[i].id == k
  {
    var c, s := Collected(items, axis), SortedGroups(items, axis, sortGroups, strLe);
    var p :| 0 <= p < |Keys(items, axis)| && Keys(items, axis)[p] == k;
    InsertionSortPermutes(c, GroupOrdering(sortGroups, strLe));
    assert c[p] in multiset(c);
    assert c[p] in s;
    var i :| 0 <= i < |s| && s[i] == c[p];
  }

  /** The sorted groups have unique ids, one per key. */
  lemma SortedGroupsIdsDistinct(items: seq<TodoItem>, axis: GroupBy, sortGroups: SortDirection,
                                strLe: (string, string) -> bool)
    ensures |SortedGroups(items, axis, sortGroups, strLe)| == |Keys(items, axis)|
    ensures forall i, j :: 0 <= i < j < |SortedGroups(items, axis, sortGroups, strLe)| ==>
      SortedGroups(items, axis, sortGroups, strLe)[i].id != SortedGroups(items, axis, sortGroups, strLe)[j].id
  {
    var c, s := Collected(items, axis), SortedGroups(items, axis, sortGroups, strLe);
    CollectedDistinct(items, axis);
    InsertionSortPermutes(c, GroupOrdering(sortGroups, strLe));
    DistinctPermutation(c, s);
    forall i, j | 0 <= i < j < |s| ensures s[i].id != s[j].id {
      SortedGroupIsGroupFor(items, axis, sortGroups, strLe, i);
      SortedGroupIsGroupFor(items, axis, sortGroups, strLe, j);
    }
  }

  // ---------------------------------------------------------------------------
  // The result, group by group.

  /** The post-processing of one collected group: its items sorted, or its subgroups added. */
  function Finished(c: TodoGroup, axis: GroupBy, sortItems: SortDirection, subGroups: bool,
                    subGroupSort: SortDirection, strLe: (string, string) -> bool): TodoGroup
  {
    if subGroups then WithSubgroups(c, axis, subGroupSort, sortItems, strLe)
    else c.(todos := InsertionSort(c.todos, ItemOrdering(sortItems, strLe)))
  }

  /**
   * The result has one group per key, and each is the group the single pass
   * built for its id, with its items sorted (subgrouping off) or with its
   * subgroups added (subgrouping on).
   */
  lemma GroupingIsGroupFor(items: seq<TodoItem>, axis: GroupBy, sortGroups: SortDirection, sortItems: SortDirection,
                           subGroups: bool, subGroupSort: SortDirection, strLe: (string, string) -> bool)
    ensures |Grouping(items, axis, sortGroups, sortItems, subGroups, subGroupSort, strLe)| == |Keys(items, axis)|
    ensures forall i :: 0 <= i < |Keys(items, axis)| ==>
      var r := Grouping(items, axis, sortGroups, sortItems, subGroups, subGroupSort, strLe);
      r[i].id in Keys(items, axis) &&
      r[i] == Finished(GroupFor(items, r[i].id, axis), axis, sortItems, subGroups, subGroupSort, strLe)
  {
    var s := SortedGroups(items, axis, sortGroups, strLe);
    var r := Grouping(items, axis, sortGroups, sortItems, subGroups, subGroupSort, strLe);
    SortedGroupsIdsDistinct(items, axis, sortGroups, strLe);
    MapGroupsAt(s, SortTodosOf(ItemOrdering(sortItems, strLe)));
    MapGroupsAt(s, SubgroupsOf(axis, subGroupSort, sortItems, strLe));
    forall i | 0 <= i < |s|
      ensures r[i].id in Keys(items, axis)
      ensures r[i] == Finished(GroupFor(items, r[i].id, axis), axis, sortItems, subGroups, subGroupSort, strLe)
    {
      SortedGroupIsGroupFor(items, axis, sortGroups, strLe, i);
      assert r[i] == Finished(s[i], axis, sortItems, subGroups, subGroupSort, strLe);
    }
  }

  /** What the post-processing keeps: every field but `todos` and `groups`, and the items as a multiset. */
  lemma FinishedKeeps(c: TodoGroup, axis: GroupBy, sortItems: SortDirection, subGroups: bool,
                      subGroupSort: SortDirection, strLe: (string, string) -> bool)
    ensures var f := Finished(c, axis, sortItems, subGroups, subGroupSort, strLe);
      f.(todos := c.todos, groups := c.groups) == c &&
      multiset(f.todos) == multiset(c.todos) && |f.todos| == |c.todos| &&
      (subGroups ==> f.todos == c.todos) && (!subGroups ==> f.groups == c.groups)
  {
    InsertionSortPermutes(c.todos, ItemOrdering(sortItems, strLe));
  }

  /** The group a result position holds, with its members and what the pass kept. */
  lemma GroupingAt(items: seq<TodoItem>, axis: GroupBy, sortGroups: SortDirection, sortItems: SortDirection,
                   subGroups: bool, subGroupSort: SortDirection, strLe: (string, string) -> bool, i: int)
    requires 0 <= i < |Grouping(items, axis, sortGroups, sortItems, subGroups, subGroupSort, strLe)|
    ensures var g := Grouping(items, axis, sortGroups, sortItems, subGroups, subGroupSort, strLe)[i];
      g.id in Keys(items, axis) && g.kind == axis &&
      var c := GroupFor(items, g.id, axis);
      g == Finished(c, axis, sortItems, subGroups, subGroupSort, strLe) &&
      multiset(g.todos) == multiset(Members(items, g.id, axis)) &&
      g.newestItem == Newest(c.todos) && g.oldestItem == Oldest(c.todos) &&
      (forall x :: x in g.todos <==> x in Members(items, g.id, axis))
  {
    GroupingIsGroupFor(items, axis, sortGroups, sortItems, subGroups, subGroupSort, strLe);
    var g := Grouping(items, axis, sortGroups, sortItems, subGroups, subGroupSort, strLe)[i];
    FinishedKeeps(GroupFor(items, g.id, axis), axis, sortItems, subGroups, subGroupSort, strLe);
    forall x ensures x in g.todos <==> x in Members(items, g.id, axis) {
      assert x in g.todos <==> x in multiset(g.todos);
    }
  }

  // ---------------------------------------------------------------------------
  // Partition, uniqueness, totals.

  /** Each item is in the groups whose id is its key, and in no other; such a group exists. */
  lemma GroupingPartition(items: seq<TodoItem>, axis: GroupBy, sortGroups: SortDirection, sortItems: SortDirection,
                          subGroups: bool, subGroupSort: SortDirection, strLe: (string, string) -> bool, x: TodoItem)
    requires x in items
    ensures var r := Grouping(items, axis, sortGroups, sortItems, subGroups, subGroupSort, strLe);
      (exists i :: 0 <= i < |r| && r[i].id == Key(x, axis)) &&
      (forall i :: 0 <= i < |r| ==> (x in r[i].todos <==> r[i].id == Key(x, axis)))
  {
    var r := Grouping(items, axis, sortGroups, sortItems, subGroups, subGroupSort, strLe);
    var s := SortedGroups(items, axis, sortGroups, strLe);
    KeysOccur(items, Key(x, axis), axis);
    SortedGroupsCoverKeys(items, axis, sortGroups, strLe, Key(x, axis));
    var i0 :| 0 <= i0 < |s| && s[i0].id == Key(x, axis);
    MapGroupsAt(s, SortTodosOf(ItemOrdering(sortItems, strLe)));
    MapGroupsAt(s, SubgroupsOf(axis, subGroupSort, sortItems, strLe));
    assert r[i0].id == s[i0].id;
    forall i | 0 <= i < |r| ensures x in r[i].todos <==> r[i].id == Key(x, axis) {
      GroupingAt(items, axis, sortGroups, sortItems, subGroups, subGroupSort, strLe, i);
      MembersHaveKey(items, r[i].id, axis, x);
    }
  }

  /** Group ids are unique. */
  lemma GroupingIdsUnique(items: seq<TodoItem>, axis: GroupBy, sortGroups: SortDirection, sortItems: SortDirection,
                          subGroups: bool, subGroupSort: SortDirection, strLe: (string, string) -> bool)
    ensures var r := Grouping(items, axis, sortGroups, sortItems, subGroups, subGroupSort, strLe);
      forall i, j :: 0 <= i < j < |r| ==> r[i].id != r[j].id
  {
    var s := SortedGroups(items, axis, sortGroups, strLe);
    var r := Grouping(items, axis, sortGroups, sortItems, subGroups, subGroupSort, strLe);
    SortedGroupsIdsDistinct(items, axis, sortGroups, strLe);
    MapGroupsAt(s, SortTodosOf(ItemOrdering(sortItems, strLe)));
    MapGroupsAt(s, SubgroupsOf(axis, subGroupSort, sortItems, strLe));
    forall i, j | 0 <= i < j < |r| ensures r[i].id != r[j].id {
      assert r[i].id == s[i].id && r[j].id == s[j].id;
    }
  }

  /** The number of items over all groups. */
  function TotalTodos(gs: seq<TodoGroup>): nat {
    if gs == [] then 0 else TotalTodos(gs[..|gs| - 1]) + |gs[|gs| - 1].todos|
  }

  lemma {:induction false} TotalConcat(u: seq<TodoGroup>, v: seq<TodoGroup>)
    ensures TotalTodos(u + v) == TotalTodos(u) + TotalTodos(v)
  {
    if v == [] {
      assert u + v == u;
    } else {
      TotalConcat(u, v[..|v| - 1]);
      assert (u + v)[..|u + v| - 1] == u + v[..|v| - 1];
    }
  }

  lemma TotalUpdate(gs: seq<TodoGroup>, idx: int, g: TodoGroup)
    requires 0 <= idx < |gs|
    ensures TotalTodos(gs[idx := g]) == TotalTodos(gs) - |gs[idx].todos| + |g.todos|
  {
    assert gs == gs[..idx] + [gs[idx]] + gs[idx + 1..];
    assert gs[idx := g] == gs[..idx] + [g] + gs[idx + 1..];
    TotalConcat(gs[..idx] + [gs[idx]], gs[idx + 1..]);
    TotalConcat(gs[..idx] + [g], gs[idx + 1..]);
    TotalConcat(gs[..idx], [gs[idx]]);
    TotalConcat(gs[..idx], [g]);
    assert [g][..0] == [] && [gs[idx]][..0] == [];
  }

  /** Reordering the groups keeps the total. */
  lemma {:induction false} TotalPermutation(a: seq<TodoGroup>, b: seq<TodoGroup>)
    requires multiset(a) == multiset(b)
    ensures TotalTodos(a) == TotalTodos(b)
    decreases |a|
  {
    if a == [] {
      assert |b| == |multiset(b)| == 0;
    } else {
      var init, x := a[..|a| - 1], a[|a| - 1];
      assert a == init + [x];
      assert x in multiset(b);
      var i :| 0 <= i < |b| && b[i] == x;
      var rest := b[..i] + b[i + 1..];
      assert multiset(rest) == multiset(init) by {
        assert b == b[..i] + [x] + b[i + 1..];
        assert multiset(rest) == multiset(b) - multiset{x};
        assert multiset(init) == multiset(a) - multiset{x};
      }
      TotalPermutation(init, rest);
      TotalRemove(b, i);
      assert TotalTodos(a) == TotalTodos(init) + |x.todos|;
    }
  }

  /** Taking one group out of the list takes its items out of the total. */
  lemma TotalRemove(b: seq<TodoGroup>, i: int)
    requires 0 <= i < |b|
    ensures TotalTodos(b) == TotalTodos(b[..i] + b[i + 1..]) + |b[i].todos|
  {
    var x := b[i];
    assert b == b[..i] + [x] + b[i + 1..];
    TotalConcat(b[..i] + [x], b[i + 1..]);
    TotalConcat(b[..i], [x]);
    TotalConcat(b[..i], b[i + 1..]);
    assert [x][..0] == [];
  }

  /** The single pass puts every item in one group. */
  lemma {:induction false} CollectedTotal(items: seq<TodoItem>, axis: GroupBy)
    ensures TotalTodos(Collected(items, axis)) == |items|
  {
    if items != [] {
      var xs, x := items[..|items| - 1], items[|items| - 1];
      LastSplit(items);
      CollectedTotal(xs, axis);
      CollectedTotalStep(xs, x, axis);
    }
  }

  lemma LastSplit<T>(s: seq<T>)
    requires s != []
    ensures s == s[..|s| - 1] + [s[|s| - 1]]
  {
  }

  /** Adding one item to the input adds one item to the collected groups. */
  lemma CollectedTotalStep(xs: seq<TodoItem>, x: TodoItem, axis: GroupBy)
    ensures TotalTodos(Collected(xs + [x], axis)) == TotalTodos(Collected(xs, axis)) + 1
  {
    var c := Collected(xs, axis);
    if Key(x, axis) in Keys(xs, axis) {
      var idx :| 0 <= idx < |Keys(xs, axis)| && Keys(xs, axis)[idx] == Key(x, axis);
      CollectedStepExisting(xs, x, axis, idx);
      TotalAddItem(c, idx, x);
    } else {
      CollectedStepNew(xs, x, axis);
      TotalAddGroup(c, AddItem(NewGroup(x, axis), x));
    }
  }

  lemma TotalAddItem(gs: seq<TodoGroup>, idx: int, x: TodoItem)
    requires 0 <= idx < |gs|
    ensures TotalTodos(gs[idx := AddItem(gs[idx], x)]) == TotalTodos(gs) + 1
  {
    TotalUpdate(gs, idx, AddItem(gs[idx], x));
  }

  lemma TotalAddGroup(gs: seq<TodoGroup>, g: TodoGroup)
    ensures TotalTodos(gs + [g]) == TotalTodos(gs) + |g.todos|
  {
    TotalConcat(gs, [g]);
    assert [g][..0] == [];
  }

  lemma {:induction false} TotalMap(gs: seq<TodoGroup>, f: TodoGroup -> TodoGroup)
    requires forall g :: |f(g).todos| == |g.todos|
    ensures TotalTodos(MapGroups(gs, f)) == TotalTodos(gs)
  {
    if gs != [] {
      TotalMap(gs[..|gs| - 1], f);
    }
  }

  /** No item is lost or duplicated: the groups hold as many items as the input. */
  lemma GroupingTotal(items: seq<TodoItem>, axis: GroupBy, sortGroups: SortDirection, sortItems: SortDirection,
                      subGroups: bool, subGroupSort: SortDirection, strLe: (string, string) -> bool)
    ensures TotalTodos(Grouping(items, axis, sortGroups, sortItems, subGroups, subGroupSort, strLe)) == |items|
  {
    var s := SortedGroups(items, axis, sortGroups, strLe);
    CollectedTotal(items, axis);
    InsertionSortPermutes(Collected(items, axis), GroupOrdering(sortGroups, strLe));
    TotalPermutation(Collected(items, axis), s);
    TotalMap(s, SortTodosOf(ItemOrdering(sortItems, strLe)));
    TotalMap(s, SubgroupsOf(axis, subGroupSort, sortItems, strLe));
  }

  // ---------------------------------------------------------------------------
  // Timestamps, names, order.

  /** No group is empty; `newestItem` is the members' latest `ctime` (at least 0), `oldestItem` their earliest. */
  lemma GroupingTimestamps(items: seq<TodoItem>, axis: GroupBy, sortGroups: SortDirection, sortItems: SortDirection,
                           subGroups: bool, subGroupSort: SortDirection, strLe: (string, string) -> bool, i: int)
    requires 0 <= i < |Grouping(items, axis, sortGroups, sortItems, subGroups, subGroupSort, strLe)|
    ensures var g := Grouping(items, axis, sortGroups, sortItems, subGroups, subGroupSort, strLe)[i];
      g.todos != [] &&
      g.newestItem >= 0 && (forall x :: x in g.todos ==> x.file.ctime <= g.newestItem) &&
      (g.newestItem == 0 || exists x :: x in g.todos && x.file.ctime == g.newestItem) &&
      g.oldestItem.Finite? && (forall x :: x in g.todos ==> g.oldestItem.n <= x.file.ctime) &&
      (exists x :: x in g.todos && x.file.ctime == g.oldestItem.n)
  {
    GroupingAt(items, axis, sortGroups, sortItems, subGroups, subGroupSort, strLe, i);
    var g := Grouping(items, axis, sortGroups, sortItems, subGroups, subGroupSort, strLe)[i];
    var c := GroupFor(items, g.id, axis);
    TimestampsOfMembers(g, c.todos);
  }

  /** The time bounds of a group whose members are exactly `ms`, from the running extremes of `ms`. */
  lemma TimestampsOfMembers(g: TodoGroup, ms: seq<TodoItem>)
    requires ms != []
    requires forall x :: x in g.todos <==> x in ms
    requires g.newestItem == Newest(ms) && g.oldestItem == Oldest(ms)
    ensures g.todos != [] &&
      g.newestItem >= 0 && (forall x :: x in g.todos ==> x.file.ctime <= g.newestItem) &&
      (g.newestItem == 0 || exists x :: x in g.todos && x.file.ctime == g.newestItem) &&
      g.oldestItem.Finite? && (forall x :: x in g.todos ==> g.oldestItem.n <= x.file.ctime) &&
      (exists x :: x in g.todos && x.file.ctime == g.oldestItem.n)
  {
    NewestIsMax(ms);
    OldestIsMin(ms);
    assert ms[0] in g.todos;
  }

  /** `p` is the position of the first item with key `k`. */
  ghost predicate FirstOfKey(items: seq<TodoItem>, k: string, axis: GroupBy, p: int) {
    0 <= p < |items| && Key(items[p], axis) == k && forall q :: 0 <= q < p ==> Key(items[q], axis) != k
  }

  /** The first item with key `k` in the input is the first member of its group. */
  lemma {:induction false} MembersFirst(items: seq<TodoItem>, k: string, axis: GroupBy)
    requires Members(items, k, axis) != []
    ensures exists p :: FirstOfKey(items, k, axis, p) && items[p] == Members(items, k, axis)[0]
  {
    var init, x := items[..|items| - 1], items[|items| - 1];
    assert items == init + [x];
    MembersAppend(init, x, k, axis);
    if Members(init, k, axis) != [] {
      MembersFirst(init, k, axis);
      var p :| FirstOfKey(init, k, axis, p) && init[p] == Members(init, k, axis)[0];
      FirstOfKeyPrefix(init, x, k, axis, p);
    } else {
      forall q | 0 <= q < |init| ensures Key(init[q], axis) != k {
        MembersHaveKey(init, k, axis, init[q]);
      }
      FirstOfKeyLast(init, x, k, axis);
    }
  }

  lemma FirstOfKeyPrefix(init: seq<TodoItem>, x: TodoItem, k: string, axis: GroupBy, p: int)
    requires FirstOfKey(init, k, axis, p)
    ensures FirstOfKey(init + [x], k, axis, p) && (init + [x])[p] == init[p]
  {
    assert forall q :: 0 <= q < p ==> (init + [x])[q] == init[q];
  }

  lemma FirstOfKeyLast(init: seq<TodoItem>, x: TodoItem, k: string, axis: GroupBy)
    requires Key(x, axis) == k
    requires forall q :: 0 <= q < |init| ==> Key(init[q], axis) != k
    ensures FirstOfKey(init + [x], k, axis, |init|) && (init + [x])[|init|] == x
  {
    assert forall q :: 0 <= q < |init| ==> (init + [x])[q] == init[q];
  }

  /**
   * A group's names come from the first input item with its key: for a page
   * group `sortName` and `pageName` are that item's file name; for a tag group
   * `sortName` is its main tag (an absent one printing as "undefined") followed by its sub
   * tag or "0", and `mainTag`/`subTags` are its tags.
   */
  lemma GroupingNames(items: seq<TodoItem>, axis: GroupBy, sortGroups: SortDirection, sortItems: SortDirection,
                      subGroups: bool, subGroupSort: SortDirection, strLe: (string, string) -> bool, i: int)
    requires 0 <= i < |Grouping(items, axis, sortGroups, sortItems, subGroups, subGroupSort, strLe)|
    ensures var g := Grouping(items, axis, sortGroups, sortItems, subGroups, subGroupSort, strLe)[i];
      exists p :: FirstOfKey(items, g.id, axis, p) && NamedAfter(g, items[p], axis)
  {
    GroupingAt(items, axis, sortGroups, sortItems, subGroups, subGroupSort, strLe, i);
    var g := Grouping(items, axis, sortGroups, sortItems, subGroups, subGroupSort, strLe)[i];
    var c := GroupFor(items, g.id, axis);
    GroupForNamed(items, g.id, axis);
    var p :| FirstOfKey(items, g.id, axis, p) && NamedAfter(c, items[p], axis);
    FinishedKeeps(c, axis, sortItems, subGroups, subGroupSort, strLe);
    NamedAfterKeep(g, c, items[p], axis);
  }

  /** The group the single pass builds for `k` is named after the first item with that key. */
  lemma GroupForNamed(items: seq<TodoItem>, k: string, axis: GroupBy)
    requires k in Keys(items, axis)
    ensures exists p :: FirstOfKey(items, k, axis, p) && NamedAfter(GroupFor(items, k, axis), items[p], axis)
  {
    MembersOfKey(items, k, axis);
    MembersFirst(items, k, axis);
    var p :| FirstOfKey(items, k, axis, p) && items[p] == Members(items, k, axis)[0];
    BuildNamed(Members(items, k, axis), axis);
  }

  /** The names a group takes from the item that created it. */
  ghost predicate NamedAfter(g: TodoGroup, x: TodoItem, axis: GroupBy) {
    (axis == Page ==> g.sortName == x.file.name && g.pageName == Some(x.file.name)) &&
    (axis == Tag ==> g.sortName == TagText(x.mainTag) + x.subTag.GetOr("0") &&
                     g.mainTag == x.mainTag && g.subTags == x.subTag)
  }

  lemma BuildNamed(ms: seq<TodoItem>, axis: GroupBy)
    requires ms != []
    ensures NamedAfter(Build(ms, axis), ms[0], axis)
  {
  }

  lemma NamedAfterKeep(g: TodoGroup, c: TodoGroup, x: TodoItem, axis: GroupBy)
    requires NamedAfter(c, x, axis)
    requires g.(todos := c.todos, groups := c.groups) == c
    ensures NamedAfter(g, x, axis)
  {
    assert g.sortName == c.sortName && g.pageName == c.pageName;
    assert g.mainTag == c.mainTag && g.subTags == c.subTags;
  }

  /** A pass that keeps the sort keys of every group keeps the groups sorted. */
  lemma SortedMap(gs: seq<TodoGroup>, f: TodoGroup -> TodoGroup, sortGroups: SortDirection, strLe: (string, string) -> bool)
    requires Sorted(gs, GroupOrdering(sortGroups, strLe))
    requires forall g :: f(g).sortName == g.sortName && f(g).newestItem == g.newestItem && f(g).oldestItem == g.oldestItem
    ensures Sorted(MapGroups(gs, f), GroupOrdering(sortGroups, strLe))
  {
    var o := GroupOrdering(sortGroups, strLe);
    var r := MapGroups(gs, f);
    MapGroupsAt(gs, f);
    forall i, j | 0 <= i < j < |r| ensures o.Le(r[i], r[j]) {
      assert o.Le(gs[i], gs[j]);
      assert r[i] == f(gs[i]) && r[j] == f(gs[j]);
      assert GroupTime(sortGroups, r[i]) == GroupTime(sortGroups, gs[i]);
      assert GroupTime(sortGroups, r[j]) == GroupTime(sortGroups, gs[j]);
    }
  }

  /** Groups come out sorted by `sortName` or by the time key the direction picks. */
  lemma GroupingSorted(items: seq<TodoItem>, axis: GroupBy, sortGroups: SortDirection, sortItems: SortDirection,
                       subGroups: bool, subGroupSort: SortDirection, strLe: (string, string) -> bool)
    requires IsTotalPreorder(strLe)
    ensures Sorted(Grouping(items, axis, sortGroups, sortItems, subGroups, subGroupSort, strLe),
                   GroupOrdering(sortGroups, strLe))
  {
    var s := SortedGroups(items, axis, sortGroups, strLe);
    InsertionSortSorted(Collected(items, axis), GroupOrdering(sortGroups, strLe));
    if subGroups {
      SubgroupsOfKeepsKeys(axis, subGroupSort, sortItems, strLe);
      SortedMap(s, SubgroupsOf(axis, subGroupSort, sortItems, strLe), sortGroups, strLe);
    } else {
      SortedMap(s, SortTodosOf(ItemOrdering(sortItems, strLe)), sortGroups, strLe);
    }
  }

  lemma SubgroupsOfKeepsKeys(axis: GroupBy, subGroupSort: SortDirection, sortItems: SortDirection,
                             strLe: (string, string) -> bool)
    ensures var f := SubgroupsOf(axis, subGroupSort, sortItems, strLe);
      forall g :: f(g).sortName == g.sortName && f(g).newestItem == g.newestItem && f(g).oldestItem == g.oldestItem
  {
  }

  /** What the sort order means for the time directions. */
  lemma GroupOrderingMeaning(sortGroups: SortDirection, strLe: (string, string) -> bool, g: TodoGroup, h: TodoGroup)
    ensures sortGroups == NewToOld ==> (GroupOrdering(sortGroups, strLe).Le(g, h) <==> h.newestItem <= g.newestItem)
    ensures sortGroups == OldToNew && g.oldestItem.Finite? && h.oldestItem.Finite? ==>
      (GroupOrdering(sortGroups, strLe).Le(g, h) <==> g.oldestItem.n <= h.oldestItem.n)
    ensures sortGroups == AToZ ==> (GroupOrdering(sortGroups, strLe).Le(g, h) <==> strLe(g.sortName, h.sortName))
    ensures sortGroups == ZToA ==> (GroupOrdering(sortGroups, strLe).Le(g, h) <==> strLe(h.sortName, g.sortName))
  {
  }

  // ---------------------------------------------------------------------------
  // The two ways the pass ends.

  /** With subgrouping off, each group's items are its members sorted by `sortItems`, and it has no subgroups. */
  lemma GroupingItemsSorted(items: seq<TodoItem>, axis: GroupBy, sortGroups: SortDirection, sortItems: SortDirection,
                            subGroupSort: SortDirection, strLe: (string, string) -> bool, i: int)
    requires IsTotalPreorder(strLe)
    requires 0 <= i < |Grouping(items, axis, sortGroups, sortItems, false, subGroupSort, strLe)|
    ensures var g := Grouping(items, axis, sortGroups, sortItems, false, subGroupSort, strLe)[i];
      g.groups.None? &&
      multiset(g.todos) == multiset(Members(items, g.id, axis)) &&
      Sorted(g.todos, ItemOrdering(sortItems, strLe))
  {
    GroupingAt(items, axis, sortGroups, sortItems, false, subGroupSort, strLe, i);
    var g := Grouping(items, axis, sortGroups, sortItems, false, subGroupSort, strLe)[i];
    InsertionSortSorted(Members(items, g.id, axis), ItemOrdering(sortItems, strLe));
  }

  /**
   * With subgrouping on, each group keeps its members in input order, and its
   * `groups` are the grouping of those members on the other axis with
   * subgrouping off: subgroups have no subgroups of their own.
   */
  lemma GroupingSubgroups(items: seq<TodoItem>, axis: GroupBy, sortGroups: SortDirection, sortItems: SortDirection,
                          subGroupSort: SortDirection, strLe: (string, string) -> bool, i: int)
    requires 0 <= i < |Grouping(items, axis, sortGroups, sortItems, true, subGroupSort, strLe)|
    ensures var g := Grouping(items, axis, sortGroups, sortItems, true, subGroupSort, strLe)[i];
      g.todos == Members(items, g.id, axis) &&
      g.groups == Some(Grouping(g.todos, OtherAxis(axis), subGroupSort, sortItems, false, NoSort, strLe)) &&
      forall j :: 0 <= j < |g.groups.value| ==>
        g.groups.value[j].kind == OtherAxis(axis) && g.groups.value[j].groups.None?
  {
    GroupingAt(items, axis, sortGroups, sortItems, true, subGroupSort, strLe, i);
    var g := Grouping(items, axis, sortGroups, sortItems, true, subGroupSort, strLe)[i];
    var other := OtherAxis(axis);
    var s := SortedGroups(g.todos, other, subGroupSort, strLe);
    MapGroupsAt(s, SortTodosOf(ItemOrdering(sortItems, strLe)));
    forall j | 0 <= j < |s| ensures s[j].kind == other && s[j].groups.None? {
      SortedGroupIsGroupFor(g.todos, other, subGroupSort, strLe, j);
    }
  }

  // ---------------------------------------------------------------------------
  // Keys and order of first occurrence.

  /**
   * Tag keys of items whose main tags hold no `/` are equal exactly when both
   * tags are: `#work` and `#work/urgent` are different groups.
   */
  lemma TagKeysSeparate(x: TodoItem, y: TodoItem)
    requires x.mainTag.Some? && y.mainTag.Some?
    requires forall i :: 0 <= i < |x.mainTag.value| ==> x.mainTag.value[i] != '/'
    requires forall i :: 0 <= i < |y.mainTag.value| ==> y.mainTag.value[i] != '/'
    ensures Key(x, Tag) == Key(y, Tag) <==> x.mainTag == y.mainTag && x.subTag == y.subTag
  {
    if Key(x, Tag) == Key(y, Tag) {
      JoinTagInjective(x.mainTag.value, x.subTag, y.mainTag.value, y.subTag);
    }
  }

  /** Before sorting, keys are in order of first occurrence: an earlier key's first item precedes any item of a later key. */
  lemma {:induction false} KeysFirstOccurrence(items: seq<TodoItem>, axis: GroupBy, i: int, j: int, q: int)
    requires 0 <= i < j < |Keys(items, axis)|
    requires 0 <= q < |items| && Key(items[q], axis) == Keys(items, axis)[j]
    ensures exists p :: 0 <= p < q && Key(items[p], axis) == Keys(items, axis)[i]
  {
    var init, x := items[..|items| - 1], items[|items| - 1];
    assert items == init + [x];
    KeysAppend(init, x, axis);
    var ks, ks0 := Keys(items, axis), Keys(init, axis);
    if q < |init| {
      assert items[q] == init[q];
      if j == |ks0| {
        KeysOccur(init, Key(init[q], axis), axis);
      }
      KeysFirstOccurrence(init, axis, i, j, q);
      var p :| 0 <= p < q && Key(init[p], axis) == ks0[i];
      assert items[p] == init[p];
    } else if j < |ks0| {
      KeysOccur(init, ks0[j], axis);
      var y :| y in init && Key(y, axis) == ks0[j];
      var q0 :| 0 <= q0 < |init| && init[q0] == y;
      KeysFirstOccurrence(init, axis, i, j, q0);
      var p :| 0 <= p < q0 && Key(init[p], axis) == ks0[i];
      assert items[p] == init[p];
    } else {
      KeysOccur(init, ks0[i], axis);
      var y :| y in init && Key(y, axis) == ks0[i];
      var p :| 0 <= p < |init| && init[p] == y;
      assert items[p] == init[p];
    }
  }

  /** Within a group, items keep input order: the members of a concatenation are the members of each part, in turn. */
  lemma {:induction false} MembersConcat(u: seq<TodoItem>, v: seq<TodoItem>, k: string, axis: GroupBy)
    ensures Members(u + v, k, axis) == Members(u, k, axis) + Members(v, k, axis)
  {
    if v == [] {
      assert u + v == u;
    } else {
      var init, x := v[..|v| - 1], v[|v| - 1];
      MembersConcat(u, init, k, axis);
      assert (u + v)[..|u + v| - 1] == u + init;
      assert (u + v)[|u + v| - 1] == x;
    }
  }
}
