/**
 * `groupTodos` (src/utils/groups.ts): a single pass puts each todo item into
 * the group for its key (its page, or its `#main/sub` tag), creating groups
 * in order of first occurrence and keeping running newest/oldest timestamps;
 * empty groups are dropped, the groups are sorted, and then either each
 * group's items are sorted or each group is grouped again on the other axis.
 */
module Groups {
  import opened Options
  import opened Tags
  import opened FileLines
  import opened Sorting

  datatype FileInfo = FileInfo(path: string, name: string, ctime: int)

  /** The fields of a todo item that grouping and sorting read. */
  datatype TodoItem = TodoItem(checked: bool, originalText: string, file: FileInfo, line: nat,
                               mainTag: Option<string>, subTag: Option<string>, fileCreatedTs: int)

  datatype GroupBy = Page | Tag

  function OtherAxis(axis: GroupBy): GroupBy {
    match axis case Page => Tag case Tag => Page
  }

  /** `oldestItem` starts at `Infinity`, which is above every timestamp. */
  datatype Extended = Infinity | Finite(n: int)

  predicate Above(e: Extended, t: int) {
    match e case Infinity => true case Finite(n) => n > t
  }

  datatype TodoGroup = TodoGroup(
    id: string, kind: GroupBy, sortName: string, className: string,
    pageName: Option<string>, mainTag: Option<string>, subTags: Option<string>,
    todos: seq<TodoItem>, oldestItem: Extended, newestItem: int,
    groups: Option<seq<TodoGroup>>)

  /**
   * JavaScript's `+` on a main tag that may be absent. `mainTag` is declared a
   * string, so an item built without one holds `undefined`, which `+` prints
   * as "undefined".
   */
  function TagText(s: Option<string>): string {
    match s case Some(v) => v case None => "undefined"
  }

  /** The group key: the page path, or `#` and the non-null of main and sub joined by `/`. */
  function Key(x: TodoItem, axis: GroupBy): (r: string)
    ensures axis == Tag ==> |r| > 0 && r[0] == '#'
  {
    match axis
    case Page => x.file.path
    case Tag => JoinTag(TagMeta(x.mainTag, x.subTag))
  }

  /** The record created for the first item of a group, before that item is added. */
  function NewGroup(x: TodoItem, axis: GroupBy): (g: TodoGroup)
    ensures g.id == Key(x, axis) && g.kind == axis && g.todos == [] && g.groups.None?
    ensures axis == Page ==> g.sortName == x.file.name && g.pageName == Some(x.file.name)
    ensures axis == Tag ==> (g.sortName == TagText(x.mainTag) + x.subTag.GetOr("0")
                             && g.mainTag == x.mainTag && g.subTags == x.subTag)
  {
    match axis
    case Page =>
      TodoGroup(Key(x, axis), Page, x.file.name, ClassifyString(x.file.name), Some(x.file.name),
                None, None, [], Infinity, 0, None)
    case Tag =>
      TodoGroup(Key(x, axis), Tag, TagText(x.mainTag) + x.subTag.GetOr("0"),
                ClassifyString(x.mainTag.GetOr("") + x.subTag.GetOr("")), None,
                x.mainTag, x.subTag, [], Infinity, 0, None)
  }

  // ---------------------------------------------------------------------------
  // What the single pass computes, stated per key.

  /** The distinct keys of `items`, in order of first occurrence. */
  function Keys(items: seq<TodoItem>, axis: GroupBy): seq<string> {
    if items == [] then []
    else
      var ks := Keys(items[..|items| - 1], axis);
      var k := Key(items[|items| - 1], axis);
      if k in ks then ks else ks + [k]
  }

  /** The items with key `k`, in input order. */
  function Members(items: seq<TodoItem>, k: string, axis: GroupBy): seq<TodoItem> {
    if items == [] then []
    else
      var x := items[|items| - 1];
      Members(items[..|items| - 1], k, axis) + (if Key(x, axis) == k then [x] else [])
  }

  /** `newestItem` after adding `ms`: the running maximum of `file.ctime`, starting at 0. */
  function Newest(ms: seq<TodoItem>): int {
    if ms == [] then 0
    else
      var t, x := Newest(ms[..|ms| - 1]), ms[|ms| - 1];
      if t < x.file.ctime then x.file.ctime else t
  }

  /** `oldestItem` after adding `ms`: the running minimum of `file.ctime`, starting at Infinity. */
  function Oldest(ms: seq<TodoItem>): Extended {
    if ms == [] then Infinity
    else
      var e, x := Oldest(ms[..|ms| - 1]), ms[|ms| - 1];
      if Above(e, x.file.ctime) then Finite(x.file.ctime) else e
  }

  lemma SplitLast(xs: seq<TodoItem>, x: TodoItem)
    ensures (xs + [x])[..|xs + [x]| - 1] == xs && (xs + [x])[|xs + [x]| - 1] == x
  {
  }

  /** The membership of `xs + [x]`. */
  lemma InAppend(xs: seq<TodoItem>, x: TodoItem, y: TodoItem)
    ensures y in xs + [x] <==> y in xs || y == x
  {
  }

  /** Group ids are unique. */
  lemma {:induction false} KeysDistinct(items: seq<TodoItem>, axis: GroupBy)
    ensures forall i, j :: 0 <= i < j < |Keys(items, axis)| ==> Keys(items, axis)[i] != Keys(items, axis)[j]
  {
    if items != [] {
      KeysDistinct(items[..|items| - 1], axis);
    }
  }

  /** There is a group for exactly the keys that occur. */
  lemma {:induction false} KeysOccur(items: seq<TodoItem>, k: string, axis: GroupBy)
    ensures k in Keys(items, axis) <==> exists x :: x in items && Key(x, axis) == k
  {
    if items != [] {
      var init, x := items[..|items| - 1], items[|items| - 1];
      assert items == init + [x];
      KeysOccur(init, k, axis);
      assert k in Keys(items, axis) <==> k in Keys(init, axis) || Key(x, axis) == k;
      forall y ensures y in items <==> y in init || y == x { InAppend(init, x, y); }
    }
  }

  /** A group holds exactly the items with its key. */
  lemma {:induction false} MembersHaveKey(items: seq<TodoItem>, k: string, axis: GroupBy, y: TodoItem)
    ensures y in Members(items, k, axis) <==> y in items && Key(y, axis) == k
  {
    if items != [] {
      var init, x := items[..|items| - 1], items[|items| - 1];
      MembersHaveKey(init, k, axis, y);
      assert items == init + [x];
      InAppend(init, x, y);
    }
  }

  /** `newestItem` is at least 0 and every member's `file.ctime`, and is 0 or one of them. */
  lemma {:induction false} NewestIsMax(ms: seq<TodoItem>)
    ensures Newest(ms) >= 0
    ensures forall x :: x in ms ==> x.file.ctime <= Newest(ms)
    ensures Newest(ms) == 0 || exists x :: x in ms && x.file.ctime == Newest(ms)
  {
    if ms != [] {
      var init, x := ms[..|ms| - 1], ms[|ms| - 1];
      NewestIsMax(init);
      assert ms == init + [x];
      forall y ensures y in ms <==> y in init || y == x { InAppend(init, x, y); }
    }
  }

  /** `oldestItem` is at most every member's `file.ctime` and is one of them; Infinity only for no members. */
  lemma {:induction false} OldestIsMin(ms: seq<TodoItem>)
    ensures ms == [] <==> Oldest(ms) == Infinity
    ensures forall x :: x in ms ==> !Above(Oldest(ms), x.file.ctime)
    ensures Oldest(ms).Finite? ==> exists x :: x in ms && x.file.ctime == Oldest(ms).n
  {
    if ms != [] {
      var init, x := ms[..|ms| - 1], ms[|ms| - 1];
      OldestIsMin(init);
      assert ms == init + [x];
      forall y ensures y in ms <==> y in init || y == x { InAppend(init, x, y); }
    }
  }

  /** A key of the input has at least one member. */
  lemma MembersOfKey(items: seq<TodoItem>, k: string, axis: GroupBy)
    requires k in Keys(items, axis)
    ensures Members(items, k, axis) != []
  {
    KeysOccur(items, k, axis);
    var x :| x in items && Key(x, axis) == k;
    MembersHaveKey(items, k, axis, x);
  }

  /** The group holding `ms`: created for its first item, then given all of them. */
  function Build(ms: seq<TodoItem>, axis: GroupBy): (g: TodoGroup)
    requires ms != []
  {
    NewGroup(ms[0], axis).(todos := ms, oldestItem := Oldest(ms), newestItem := Newest(ms))
  }

  /** The group for key `k` once every item has been added. */
  function GroupFor(items: seq<TodoItem>, k: string, axis: GroupBy): (g: TodoGroup)
    requires k in Keys(items, axis)
    ensures g.id == k && g.kind == axis && g.groups.None?
    ensures g.todos == Members(items, k, axis) && g.todos != []
    ensures g.newestItem == Newest(g.todos) && g.oldestItem == Oldest(g.todos)
  {
    MembersOfKey(items, k, axis);
    MembersHaveKey(items, k, axis, Members(items, k, axis)[0]);
    Build(Members(items, k, axis), axis)
  }

  /** The groups before sorting: one per key, in order of first occurrence. */
  function Collected(items: seq<TodoItem>, axis: GroupBy): (gs: seq<TodoGroup>)
    ensures |gs| == |Keys(items, axis)|
    ensures forall i :: 0 <= i < |gs| ==> gs[i] == GroupFor(items, Keys(items, axis)[i], axis)
  {
    var ks := Keys(items, axis);
    seq(|ks|, i requires 0 <= i < |ks| => GroupFor(items, ks[i], axis))
  }

  /** The three updates the loop makes when it adds `x` to group `g`. */
  function AddItem(g: TodoGroup, x: TodoItem): TodoGroup {
    g.(newestItem := if g.newestItem < x.file.ctime then x.file.ctime else g.newestItem,
       oldestItem := if Above(g.oldestItem, x.file.ctime) then Finite(x.file.ctime) else g.oldestItem,
       todos := g.todos + [x])
  }

  lemma KeysAppend(xs: seq<TodoItem>, x: TodoItem, axis: GroupBy)
    ensures Keys(xs + [x], axis) ==
      if Key(x, axis) in Keys(xs, axis) then Keys(xs, axis) else Keys(xs, axis) + [Key(x, axis)]
  {
    SplitLast(xs, x);
  }

  lemma MembersAppend(xs: seq<TodoItem>, x: TodoItem, k: string, axis: GroupBy)
    ensures Members(xs + [x], k, axis) == Members(xs, k, axis) + (if Key(x, axis) == k then [x] else [])
  {
    SplitLast(xs, x);
  }

  lemma NewestAppend(ms: seq<TodoItem>, x: TodoItem)
    ensures Newest(ms + [x]) == if Newest(ms) < x.file.ctime then x.file.ctime else Newest(ms)
  {
    SplitLast(ms, x);
  }

  lemma OldestAppend(ms: seq<TodoItem>, x: TodoItem)
    ensures Oldest(ms + [x]) == if Above(Oldest(ms), x.file.ctime) then Finite(x.file.ctime) else Oldest(ms)
  {
    SplitLast(ms, x);
  }

  lemma BuildAppend(ms: seq<TodoItem>, x: TodoItem, axis: GroupBy)
    requires ms != []
    ensures Build(ms + [x], axis) == AddItem(Build(ms, axis), x)
  {
    NewestAppend(ms, x);
    OldestAppend(ms, x);
    assert (ms + [x])[0] == ms[0];
  }

  /** Adding `x` to the input changes the group of its own key only, by AddItem. */
  lemma GroupForStep(xs: seq<TodoItem>, x: TodoItem, k: string, axis: GroupBy)
    requires k in Keys(xs, axis)
    ensures k in Keys(xs + [x], axis)
    ensures GroupFor(xs + [x], k, axis) ==
      if Key(x, axis) == k then AddItem(GroupFor(xs, k, axis), x) else GroupFor(xs, k, axis)
  {
    KeysAppend(xs, x, axis);
    var ms := Members(xs, k, axis);
    MembersOfKey(xs, k, axis);
    if Key(x, axis) == k {
      assert Members(xs + [x], k, axis) == ms + [x] by { MembersAppend(xs, x, k, axis); }
      BuildAppend(ms, x, axis);
    } else {
      assert Members(xs + [x], k, axis) == ms by { MembersAppend(xs, x, k, axis); }
    }
  }

  /** A key that does not occur has no members. */
  lemma {:induction false} MembersOfNonKey(xs: seq<TodoItem>, k: string, axis: GroupBy)
    requires k !in Keys(xs, axis)
    ensures Members(xs, k, axis) == []
  {
    if xs != [] {
      var init := xs[..|xs| - 1];
      MembersOfNonKey(init, k, axis);
    }
  }

  /** The first item of a new key makes a fresh group holding just that item. */
  lemma GroupForNew(xs: seq<TodoItem>, x: TodoItem, axis: GroupBy)
    requires Key(x, axis) !in Keys(xs, axis)
    ensures Key(x, axis) in Keys(xs + [x], axis)
    ensures GroupFor(xs + [x], Key(x, axis), axis) == AddItem(NewGroup(x, axis), x)
  {
    KeysAppend(xs, x, axis);
    MembersOfNonKey(xs, Key(x, axis), axis);
    MembersAppend(xs, x, Key(x, axis), axis);
    NewestAppend([], x);
    OldestAppend([], x);
    assert [] + [x] == [x];
  }

  /** Adding `x` changes the group at position `i` only if `i` is the position of `x`'s key. */
  lemma CollectedAt(xs: seq<TodoItem>, x: TodoItem, axis: GroupBy, i: int)
    requires 0 <= i < |Keys(xs, axis)|
    ensures i < |Collected(xs + [x], axis)|
    ensures Collected(xs + [x], axis)[i] ==
      if Key(x, axis) == Keys(xs, axis)[i] then AddItem(Collected(xs, axis)[i], x) else Collected(xs, axis)[i]
  {
    var k := Keys(xs, axis)[i];
    KeysAppend(xs, x, axis);
    assert Keys(xs + [x], axis)[i] == k;
    GroupForStep(xs, x, k, axis);
  }

  lemma KeysDistinctAt(xs: seq<TodoItem>, axis: GroupBy, i: int, j: int)
    requires 0 <= i < |Keys(xs, axis)| && 0 <= j < |Keys(xs, axis)| && i != j
    ensures Keys(xs, axis)[i] != Keys(xs, axis)[j]
  {
    KeysDistinct(xs, axis);
  }

  lemma CollectedStepExisting(xs: seq<TodoItem>, x: TodoItem, axis: GroupBy, idx: int)
    requires 0 <= idx < |Keys(xs, axis)| && Keys(xs, axis)[idx] == Key(x, axis)
    ensures Collected(xs + [x], axis) == Collected(xs, axis)[idx := AddItem(Collected(xs, axis)[idx], x)]
  {
    var before, after := Collected(xs, axis), Collected(xs + [x], axis);
    var expected := before[idx := AddItem(before[idx], x)];
    assert |after| == |before| by { KeysAppend(xs, x, axis); }
    forall i | 0 <= i < |before| ensures after[i] == expected[i] {
      CollectedAt(xs, x, axis, i);
      if i != idx {
        KeysDistinctAt(xs, axis, i, idx);
      }
    }
  }

  lemma CollectedStepNew(xs: seq<TodoItem>, x: TodoItem, axis: GroupBy)
    requires Key(x, axis) !in Keys(xs, axis)
    ensures Collected(xs + [x], axis) == Collected(xs, axis) + [AddItem(NewGroup(x, axis), x)]
  {
    var before, after := Collected(xs, axis), Collected(xs + [x], axis);
    var g := AddItem(NewGroup(x, axis), x);
    assert |after| == |before| + 1 && after[|before|] == g by {
      KeysAppend(xs, x, axis);
      GroupForNew(xs, x, axis);
    }
    forall i | 0 <= i < |before| ensures after[i] == before[i] {
      CollectedAt(xs, x, axis, i);
    }
    SnocExt(after, before, g);
  }

  lemma SnocExt<T>(a: seq<T>, b: seq<T>, g: T)
    requires |a| == |b| + 1 && a[|b|] == g
    requires forall i :: 0 <= i < |b| ==> a[i] == b[i]
    ensures a == b + [g]
  {
  }

  // ---------------------------------------------------------------------------
  // The single pass.

  /** `groups.find((g) => g.id === key)`, as an index: the first group with that id, or -1. */
  method FindGroup(groups: seq<TodoGroup>, key: string) returns (idx: int)
    ensures -1 <= idx < |groups|
    ensures idx == -1 <==> forall i :: 0 <= i < |groups| ==> groups[i].id != key
    ensures idx >= 0 ==> groups[idx].id == key && forall i :: 0 <= i < idx ==> groups[i].id != key
  {
    idx := 0;
    while idx < |groups|
      invariant 0 <= idx <= |groups|
      invariant forall i :: 0 <= i < idx ==> groups[i].id != key
    {
      if groups[idx].id == key {
        return;
      }
      idx := idx + 1;
    }
    idx := -1;
  }

  /**
   * The loop of `groupTodos` up to the push of every item: afterwards there is
   * one group per key in order of first occurrence, holding that key's items
   * in input order with their newest and oldest timestamps.
   */
  method CollectGroups(items: seq<TodoItem>, axis: GroupBy) returns (groups: seq<TodoGroup>)
    ensures groups == Collected(items, axis)
  {
    groups := [];
    var n := 0;
    while n < |items|
      invariant 0 <= n <= |items|
      invariant groups == Collected(items[..n], axis)
    {
      var item := items[n];
      ghost var xs := items[..n];
      assert items[..n + 1] == xs + [item];
      var key := Key(item, axis);
      var idx := FindGroup(groups, key);
      FoundGroup(xs, axis, key, idx);
      var group;
      ghost var prev := groups;
      ghost var created := idx == -1;
      if idx == -1 {
        group := NewGroup(item, axis);
        groups := groups + [group];
        idx := |groups| - 1;
      } else {
        group := groups[idx];
      }
      ghost var before := group;
      group := PushItem(group, item);
      groups := groups[idx := group];
      if created {
        assert groups == prev + [group] by { UpdateLast(prev, before, group); }
        CollectedStepNew(xs, item, axis);
      } else {
        CollectedStepExisting(xs, item, axis, idx);
      }
      n := n + 1;
    }
    assert items[..n] == items;
  }

  /** The field updates of one loop iteration: the time bounds, then the push. */
  method PushItem(group: TodoGroup, item: TodoItem) returns (g: TodoGroup)
    ensures g == AddItem(group, item)
  {
    g := group;
    if g.newestItem < item.file.ctime {
      g := g.(newestItem := item.file.ctime);
    }
    if Above(g.oldestItem, item.file.ctime) {
      g := g.(oldestItem := Finite(item.file.ctime));
    }
    g := g.(todos := g.todos + [item]);
  }

  /** What `find` on the collected groups says about the keys. */
  lemma FoundGroup(xs: seq<TodoItem>, axis: GroupBy, key: string, idx: int)
    requires -1 <= idx < |Collected(xs, axis)|
    requires idx == -1 <==> forall i :: 0 <= i < |Collected(xs, axis)| ==> Collected(xs, axis)[i].id != key
    requires idx >= 0 ==> Collected(xs, axis)[idx].id == key
    ensures idx == -1 ==> key !in Keys(xs, axis)
    ensures idx >= 0 ==> Keys(xs, axis)[idx] == key
  {
    var gs, ks := Collected(xs, axis), Keys(xs, axis);
    if idx == -1 {
      forall i | 0 <= i < |ks| ensures ks[i] != key {
        assert gs[i].id == ks[i];
      }
    }
  }

  lemma UpdateLast(prev: seq<TodoGroup>, g: TodoGroup, h: TodoGroup)
    ensures (prev + [g])[|prev| := h] == prev + [h]
  {
  }

  // ---------------------------------------------------------------------------
  // Dropping empty groups, sorting, and the second level.

  /** `groups.filter((g) => g.todos.length > 0)`. */
  function NonEmptyGroups(gs: seq<TodoGroup>): (r: seq<TodoGroup>)
    ensures forall g :: g in r <==> g in gs && g.todos != []
  {
    if gs == [] then []
    else
      var rest := NonEmptyGroups(gs[1..]);
      assert forall g :: g in gs <==> g == gs[0] || g in gs[1..];
      if gs[0].todos != [] then [gs[0]] + rest else rest
  }

  /** Every collected group holds an item, so the filter keeps all of them. */
  lemma {:induction false} NonEmptyGroupsKeepsAll(gs: seq<TodoGroup>)
    requires forall i :: 0 <= i < |gs| ==> gs[i].todos != []
    ensures NonEmptyGroups(gs) == gs
  {
    if gs != [] {
      NonEmptyGroupsKeepsAll(gs[1..]);
      assert [gs[0]] + gs[1..] == gs;
    }
  }

  /** The order of the items inside a group (`originalText` / `fileCreatedTs`). */
  function ItemOrdering(sortItems: SortDirection, strLe: (string, string) -> bool): Ordering<TodoItem> {
    Ordering(sortItems, (x: TodoItem) => x.originalText, (x: TodoItem) => x.fileCreatedTs, strLe)
  }

  /**
   * The time key of a group: `newestItem` for `new->old`, `oldestItem` for the
   * other directions. A group that reaches the sort holds an item, so its
   * `oldestItem` is finite (OldestIsMin); Infinity is given key 0 only to make the key total.
   */
  function GroupTime(sortGroups: SortDirection, g: TodoGroup): int {
    if sortGroups == NewToOld then g.newestItem
    else match g.oldestItem case Finite(n) => n case Infinity => 0
  }

  /** The order of the groups (`sortName` / the time key above). */
  function GroupOrdering(sortGroups: SortDirection, strLe: (string, string) -> bool): Ordering<TodoGroup> {
    Ordering(sortGroups, (g: TodoGroup) => g.sortName, (g: TodoGroup) => GroupTime(sortGroups, g), strLe)
  }

  /** The collected groups in sorted order, before their items are touched. */
  function SortedGroups(items: seq<TodoItem>, axis: GroupBy, sortGroups: SortDirection,
                        strLe: (string, string) -> bool): seq<TodoGroup> {
    InsertionSort(Collected(items, axis), GroupOrdering(sortGroups, strLe))
  }

  /** `f` applied to each group in turn, as a `for (const g of ...)` loop does. */
  function MapGroups(gs: seq<TodoGroup>, f: TodoGroup -> TodoGroup): seq<TodoGroup> {
    if gs == [] then [] else MapGroups(gs[..|gs| - 1], f) + [f(gs[|gs| - 1])]
  }

  /** A group with its items sorted by `o`. */
  function SortTodosOf(o: Ordering<TodoItem>): TodoGroup -> TodoGroup {
    (g: TodoGroup) => g.(todos := InsertionSort(g.todos, o))
  }

  /** The result without subgroups: the sorted groups, each with its items sorted. */
  function FlatGrouping(items: seq<TodoItem>, axis: GroupBy, sortGroups: SortDirection, sortItems: SortDirection,
                        strLe: (string, string) -> bool): seq<TodoGroup>
  {
    MapGroups(SortedGroups(items, axis, sortGroups, strLe), SortTodosOf(ItemOrdering(sortItems, strLe)))
  }

  /** `g` with `groups` set to the grouping of its items on the other axis, without subgroups. */
  function WithSubgroups(g: TodoGroup, axis: GroupBy, subGroupSort: SortDirection, sortItems: SortDirection,
                         strLe: (string, string) -> bool): TodoGroup
  {
    g.(groups := Some(FlatGrouping(g.todos, OtherAxis(axis), subGroupSort, sortItems, strLe)))
  }

  function SubgroupsOf(axis: GroupBy, subGroupSort: SortDirection, sortItems: SortDirection,
                       strLe: (string, string) -> bool): TodoGroup -> TodoGroup {
    (g: TodoGroup) => WithSubgroups(g, axis, subGroupSort, sortItems, strLe)
  }

  /**
   * What `groupTodos` returns: the sorted groups; with `subGroups` off, each
   * with its items sorted; with it on, each with its items in input order and
   * `groups` set to the grouping of those items on the other axis, without
   * subgroups.
   */
  function Grouping(items: seq<TodoItem>, axis: GroupBy, sortGroups: SortDirection, sortItems: SortDirection,
                    subGroups: bool, subGroupSort: SortDirection, strLe: (string, string) -> bool): seq<TodoGroup>
  {
    if !subGroups then FlatGrouping(items, axis, sortGroups, sortItems, strLe)
    else MapGroups(SortedGroups(items, axis, sortGroups, strLe), SubgroupsOf(axis, subGroupSort, sortItems, strLe))
  }

  lemma MapGroupsAppend(gs: seq<TodoGroup>, g: TodoGroup, f: TodoGroup -> TodoGroup)
    ensures MapGroups(gs + [g], f) == MapGroups(gs, f) + [f(g)]
  {
    assert (gs + [g])[..|gs + [g]| - 1] == gs;
  }

  lemma TakeOneMore(gs: seq<TodoGroup>, k: nat)
    requires k < |gs|
    ensures gs[..k + 1] == gs[..k] + [gs[k]]
  {
  }

  /** Sorts a group's item list, as `sortGenericItemsInplace(g.todos, ...)` does to the array. */
  method SortTodos(todos: seq<TodoItem>, o: Ordering<TodoItem>) returns (r: seq<TodoItem>)
    ensures r == InsertionSort(todos, o)
  {
    var a := new TodoItem[|todos|](i requires 0 <= i < |todos| => todos[i]);
    assert a[..] == todos;
    SortGenericItemsInplace(a, o);
    r := a[..];
  }

  /** The pass up to the sort: collect, drop empty groups, sort the groups in place. */
  method CollectAndSort(items: seq<TodoItem>, axis: GroupBy, sortGroups: SortDirection,
                        strLe: (string, string) -> bool) returns (sorted: seq<TodoGroup>)
    ensures sorted == SortedGroups(items, axis, sortGroups, strLe)
  {
    var groups := CollectGroups(items, axis);
    FilterKeepsCollected(items, axis);
    var nonEmptyGroups := NonEmptyGroups(groups);
    assert nonEmptyGroups == Collected(items, axis);
    var arr := new TodoGroup[|nonEmptyGroups|](i requires 0 <= i < |nonEmptyGroups| => nonEmptyGroups[i]);
    assert arr[..] == Collected(items, axis);
    SortGenericItemsInplace(arr, GroupOrdering(sortGroups, strLe));
    sorted := arr[..];
  }

  /** `groupTodos`. `subGroupSort` is only read when `subGroups` is on. */
  method GroupTodos(items: seq<TodoItem>, axis: GroupBy, sortGroups: SortDirection, sortItems: SortDirection,
                    subGroups: bool, subGroupSort: SortDirection, strLe: (string, string) -> bool)
    returns (result: seq<TodoGroup>)
    ensures result == Grouping(items, axis, sortGroups, sortItems, subGroups, subGroupSort, strLe)
    decreases if subGroups then 1 else 0, 1
  {
    var sorted := CollectAndSort(items, axis, sortGroups, strLe);
    if !subGroups {
      result := SortItemsOfEach(sorted, ItemOrdering(sortItems, strLe));
    } else {
      result := AddSubgroups(sorted, axis, subGroupSort, sortItems, strLe);
    }
  }

  /** The `!subGroups` branch: each group's item list is sorted. */
  method SortItemsOfEach(gs: seq<TodoGroup>, o: Ordering<TodoItem>) returns (r: seq<TodoGroup>)
    ensures r == MapGroups(gs, SortTodosOf(o))
  {
    r := [];
    var k := 0;
    while k < |gs|
      invariant 0 <= k <= |gs|
      invariant r == MapGroups(gs[..k], SortTodosOf(o))
    {
      var g := gs[k];
      var sorted := SortTodos(g.todos, o);
      MapGroupsAppend(gs[..k], g, SortTodosOf(o));
      TakeOneMore(gs, k);
      r := r + [g.(todos := sorted)];
      k := k + 1;
    }
    assert gs[..k] == gs;
  }

  /** The `subGroups` branch: each group gets `groups` from its items on the other axis. */
  method AddSubgroups(gs: seq<TodoGroup>, axis: GroupBy, subGroupSort: SortDirection, sortItems: SortDirection,
                      strLe: (string, string) -> bool) returns (r: seq<TodoGroup>)
    ensures r == MapGroups(gs, SubgroupsOf(axis, subGroupSort, sortItems, strLe))
    decreases 1, 0
  {
    r := [];
    var k := 0;
    while k < |gs|
      invariant 0 <= k <= |gs|
      invariant r == MapGroups(gs[..k], SubgroupsOf(axis, subGroupSort, sortItems, strLe))
    {
      var g := gs[k];
      var sub := GroupTodos(g.todos, OtherAxis(axis), subGroupSort, sortItems, false, NoSort, strLe);
      MapGroupsAppend(gs[..k], g, SubgroupsOf(axis, subGroupSort, sortItems, strLe));
      TakeOneMore(gs, k);
      r := r + [g.(groups := Some(sub))];
      k := k + 1;
    }
    assert gs[..k] == gs;
  }

  /** `filter` after the single pass is the identity. */
  lemma FilterKeepsCollected(items: seq<TodoItem>, axis: GroupBy)
    ensures NonEmptyGroups(Collected(items, axis)) == Collected(items, axis)
  {
    CollectedNonEmpty(items, axis);
    NonEmptyGroupsKeepsAll(Collected(items, axis));
  }

  /** No collected group is empty. */
  lemma CollectedNonEmpty(items: seq<TodoItem>, axis: GroupBy)
    ensures forall i :: 0 <= i < |Collected(items, axis)| ==> Collected(items, axis)[i].todos != []
  {
  }
}
