/** components/CodeDirectory.tsx: the published package's directory tree,
    shown one row per folder or file, each child under its parent and indented
    one step further. */
module CodeDirectory {
  import opened Text

  datatype ItemKind = Folder | File

  /** `DirectoryItem`. An item without `children` is given the empty list:
      `item.children && …` renders nothing for either. */
  datatype DirectoryItem = DirectoryItem(name: string, kind: ItemKind, description: string,
                                         count: Option<int>, children: seq<DirectoryItem>)

  /** `directoryStructure`, built from its sub-folders upwards. */
  const DirectoryStructure: seq<DirectoryItem> := [
    DirectoryItem("sso [npm-pkg]", Folder, "The root of our published Sovereign School OS package.", Some(12), [
      ComponentsFolder,
      DirectoryItem("hooks/", Folder, "Custom React hooks for shared logic.", Some(2), []),
      DirectoryItem("services/", Folder, "API calls and external service integrations.", Some(15), []),
      DirectoryItem("utils/", Folder, "Helper functions and utilities.", Some(4), [])
    ])
  ]

  const ComponentsFolder: DirectoryItem :=
    DirectoryItem("components/", Folder, "Reusable React components, organized by domain.", Some(14), [
      DirectoryItem("administration/", Folder, "Components for the Admin Portal.", Some(13), []),
      DirectoryItem("common/", Folder, "Shared components like Buttons, Modals.", Some(6), []),
      DirectoryItem("icons/", Folder, "SVG icon components.", Some(2), []),
      StudentFolder,
      DirectoryItem("teacher/", Folder, "Components for the Teacher Portal.", Some(23), [])
    ])

  const StudentFolder: DirectoryItem :=
    DirectoryItem("student/", Folder, "Components for the Student Portal.", Some(31), [
      DirectoryItem("interactive/", Folder, "Interactive learning widgets.", Some(1), [])
    ])

  // ---------------------------------------------------------------------------
  // One row

  /** `item.count && …`: a count is shown when it is present and not zero. */
  predicate Truthy(count: Option<int>) {
    count.Some? && count.value != 0
  }

  /** A rendered row: the item, its depth, its left padding in pixels, whether
      it has the folder icon and the count its badge shows, if any. */
  datatype Row = Row(item: DirectoryItem, level: nat, indent: int, folderIcon: bool, badge: Option<int>)

  /** The row of one item at one depth: it shows that item at that depth,
      drawn as `WellRendered` says. */
  function RowOf(item: DirectoryItem, level: nat): (r: Row)
    ensures r.item == item && r.level == level && WellRendered(r)
  {
    Row(item, level, level * 24 + 8,
        item.kind == Folder,
        if item.count.Some? && item.count.value != 0 then item.count else None)
  }

  /** What a row shows follows from its item and its depth alone. */
  predicate WellRendered(r: Row) {
    && r.indent == 24 * r.level + 8
    && (r.folderIcon <==> r.item.kind == Folder)
    && (r.badge.Some? <==> Truthy(r.item.count))
    && (r.badge.Some? ==> r.badge == r.item.count)
  }

  // ---------------------------------------------------------------------------
  // `DirectoryTree`

  /** `<DirectoryTree items={items} level={level} />`: each item's row, then
      the rows of its children one level deeper, then the next item. */
  function Rows(items: seq<DirectoryItem>, level: nat): (r: seq<Row>)
    ensures forall i :: 0 <= i < |r| ==> WellRendered(r[i])
    decreases items
  {
    if items == [] then []
    else
      assert items[0] in items;
      [RowOf(items[0], level)] + Rows(items[0].children, level + 1) + Rows(items[1..], level)
  }

  /** The number of items in a forest. */
  function NodeCount(items: seq<DirectoryItem>): nat
    decreases items
  {
    if items == [] then 0
    else
      assert items[0] in items;
      1 + NodeCount(items[0].children) + NodeCount(items[1..])
  }

  /** The number of levels in a forest: 0 for none, one more than the
      deepest child forest otherwise. */
  function Depth(items: seq<DirectoryItem>): nat
    decreases items
  {
    if items == [] then 0
    else
      assert items[0] in items;
      var d := 1 + Depth(items[0].children);
      var e := Depth(items[1..]);
      if d >= e then d else e
  }

  /** One row per item. */
  lemma {:induction false} RowCount(items: seq<DirectoryItem>, level: nat)
    ensures |Rows(items, level)| == NodeCount(items)
    decreases items
  {
    if items != [] {
      assert items[0] in items;
      RowCount(items[0].children, level + 1);
      RowCount(items[1..], level);
    }
  }

  /** The depths of the rows lie between `level` and the deepest level of the forest. */
  lemma RowLevels(items: seq<DirectoryItem>, level: nat)
    ensures forall i :: 0 <= i < |Rows(items, level)| ==>
      level <= Rows(items, level)[i].level < level + Depth(items)
    ensures items != [] ==>
      (exists i :: 0 <= i < |Rows(items, level)| && Rows(items, level)[i].level == level + Depth(items) - 1)
  {
    RowLevelBounds(items, level);
    RowLevelReached(items, level);
  }

  /** Every row's depth lies in `[lo, hi)`. */
  predicate LevelsWithin(rows: seq<Row>, lo: int, hi: int) {
    forall i :: 0 <= i < |rows| ==> lo <= rows[i].level < hi
  }

  lemma LevelsWithinJoin(a: seq<Row>, b: seq<Row>, lo: int, hi: int)
    requires LevelsWithin(a, lo, hi) && LevelsWithin(b, lo, hi)
    ensures LevelsWithin(a + b, lo, hi)
  {
    assert forall i :: |a| <= i < |a + b| ==> (a + b)[i] == b[i - |a|];
  }

  lemma {:induction false} RowLevelBounds(items: seq<DirectoryItem>, level: nat)
    ensures LevelsWithin(Rows(items, level), level, level + Depth(items))
    decreases items
  {
    if items != [] {
      assert items[0] in items;
      var head := [RowOf(items[0], level)];
      var kids := Rows(items[0].children, level + 1);
      var rest := Rows(items[1..], level);
      var hi := level + Depth(items);
      RowLevelBounds(items[0].children, level + 1);
      RowLevelBounds(items[1..], level);
      assert LevelsWithin(head, level, hi);
      assert LevelsWithin(kids, level, hi);
      assert LevelsWithin(rest, level, hi);
      LevelsWithinJoin(head, kids, level, hi);
      LevelsWithinJoin(head + kids, rest, level, hi);
    }
  }

  lemma {:induction false} RowLevelReached(items: seq<DirectoryItem>, level: nat)
    ensures items != [] ==>
      (exists i :: 0 <= i < |Rows(items, level)| && Rows(items, level)[i].level == level + Depth(items) - 1)
    decreases items
  {
    if items != [] {
      assert items[0] in items;
      var head := [RowOf(items[0], level)];
      var kids := Rows(items[0].children, level + 1);
      var rest := Rows(items[1..], level);
      var rs := head + kids + rest;
      assert Rows(items, level) == rs;
      RowLevelReached(items[0].children, level + 1);
      RowLevelReached(items[1..], level);
      if 1 + Depth(items[0].children) >= Depth(items[1..]) {
        if items[0].children == [] {
          assert rs[0].level == level + Depth(items) - 1;
        } else {
          var j :| 0 <= j < |kids| && kids[j].level == level + 1 + Depth(items[0].children) - 1;
          assert rs[1 + j] == kids[j];
        }
      } else {
        var j :| 0 <= j < |rest| && rest[j].level == level + Depth(items[1..]) - 1;
        assert rs[1 + |kids| + j] == rest[j];
      }
    }
  }

  /** The rows are a preorder walk: the first is at the starting level, and
      each next row is at most one level deeper than the one before it. */
  predicate Preorder(rows: seq<Row>, level: nat) {
    && (rows != [] ==> rows[0].level == level)
    && (forall i :: 0 <= i < |rows| ==> rows[i].level >= level)
    && (forall i :: 0 < i < |rows| ==> rows[i].level <= rows[i - 1].level + 1)
  }

  lemma {:induction false} RowsPreorder(items: seq<DirectoryItem>, level: nat)
    ensures Preorder(Rows(items, level), level)
    decreases items
  {
    if items != [] {
      assert items[0] in items;
      var kids := Rows(items[0].children, level + 1);
      RowsPreorder(items[0].children, level + 1);
      RowsPreorder(items[1..], level);
      PreorderCons(RowOf(items[0], level), kids, level);
      PreorderJoin([RowOf(items[0], level)] + kids, Rows(items[1..], level), level);
    }
  }

  /** A row at `level` followed by a walk one level deeper is a walk. */
  lemma PreorderCons(r: Row, kids: seq<Row>, level: nat)
    requires r.level == level && Preorder(kids, level + 1)
    ensures Preorder([r] + kids, level)
  {
    assert forall i :: 1 <= i < |[r] + kids| ==> ([r] + kids)[i] == kids[i - 1];
  }

  /** Two walks at the same level, one after the other, are a walk. */
  lemma PreorderJoin(a: seq<Row>, b: seq<Row>, level: nat)
    requires a != [] && Preorder(a, level) && Preorder(b, level)
    ensures Preorder(a + b, level)
  {
    assert forall i :: 0 <= i < |a| ==> (a + b)[i] == a[i];
    assert forall i :: |a| <= i < |a + b| ==> (a + b)[i] == b[i - |a|];
  }

  /** The items of the rows at depth `level`, in order. */
  function ItemsAt(rows: seq<Row>, level: nat): seq<DirectoryItem> {
    if rows == [] then []
    else (if rows[0].level == level then [rows[0].item] else []) + ItemsAt(rows[1..], level)
  }

  lemma {:induction false} ItemsAtAppend(a: seq<Row>, b: seq<Row>, level: nat)
    ensures ItemsAt(a + b, level) == ItemsAt(a, level) + ItemsAt(b, level)
  {
    if a == [] {
      assert a + b == b;
    } else {
      var h := if a[0].level == level then [a[0].item] else [];
      assert (a + b)[0] == a[0];
      assert (a + b)[1..] == a[1..] + b;
      ItemsAtAppend(a[1..], b, level);
      assert ItemsAt(a + b, level) == h + (ItemsAt(a[1..], level) + ItemsAt(b, level));
    }
  }

  /** Rows all deeper than `level` hold no item at `level`. */
  lemma {:induction false} ItemsAtDeeper(rows: seq<Row>, level: nat)
    requires forall i :: 0 <= i < |rows| ==> rows[i].level > level
    ensures ItemsAt(rows, level) == []
  {
    if rows != [] {
      ItemsAtDeeper(rows[1..], level);
    }
  }

  /** The item of a row at depth `level` is among the items at that depth. */
  lemma {:induction false} ItemsAtMember(rows: seq<Row>, level: nat, t: nat)
    requires t < |rows| && rows[t].level == level
    ensures rows[t].item in ItemsAt(rows, level)
  {
    if t > 0 {
      ItemsAtMember(rows[1..], level, t - 1);
    }
  }

  /** The rows at the starting depth show exactly the given items, in order. */
  lemma {:induction false} RowsTopLevel(items: seq<DirectoryItem>, level: nat)
    ensures ItemsAt(Rows(items, level), level) == items
    decreases items
  {
    if items != [] {
      assert items[0] in items;
      var head := [RowOf(items[0], level)];
      var kids := Rows(items[0].children, level + 1);
      var rest := Rows(items[1..], level);
      assert Rows(items, level) == head + kids + rest;
      ItemsAtAppend(head + kids, rest, level);
      ItemsAtAppend(head, kids, level);
      RowLevels(items[0].children, level + 1);
      ItemsAtDeeper(kids, level);
      RowsTopLevel(items[1..], level);
      assert ItemsAt(head, level) == [items[0]];
      assert items == [items[0]] + items[1..];
    }
  }

  /** Row `j` is the parent row of row `i`: one level up, the nearest such
      row before it, and its item has row `i`'s item among its children. */
  predicate LinkAt(rows: seq<Row>, i: nat, j: nat) {
    && j < i < |rows|
    && rows[j].level + 1 == rows[i].level
    && rows[i].item in rows[j].item.children
    && forall k :: j < k < i ==> rows[k].level >= rows[i].level
  }

  /** Each row below the starting depth has its parent row. */
  predicate ParentLinks(rows: seq<Row>, level: nat) {
    forall i :: 0 <= i < |rows| && rows[i].level > level ==> exists j :: 0 <= j < i && LinkAt(rows, i, j)
  }

  lemma LinkPrefix(a: seq<Row>, b: seq<Row>, i: nat, j: nat)
    requires LinkAt(a, i, j)
    ensures LinkAt(a + b, i, j)
  {
    assert forall k :: 0 <= k < |a| ==> (a + b)[k] == a[k];
  }

  lemma LinkSuffix(a: seq<Row>, b: seq<Row>, i: nat, j: nat)
    requires LinkAt(b, i, j)
    ensures LinkAt(a + b, |a| + i, |a| + j)
  {
    assert forall k :: 0 <= k < |b| ==> (a + b)[|a| + k] == b[k];
  }

  /** A child's row links to its parent item's row. */
  lemma HeadLink(item: DirectoryItem, level: nat, kids: seq<Row>, t: nat)
    requires forall k :: 0 <= k < |kids| ==> kids[k].level >= level + 1
    requires ItemsAt(kids, level + 1) == item.children
    requires t < |kids| && kids[t].level == level + 1
    ensures LinkAt([RowOf(item, level)] + kids, t + 1, 0)
  {
    ItemsAtMember(kids, level + 1, t);
    var rs := [RowOf(item, level)] + kids;
    assert forall k :: 0 < k < |rs| ==> rs[k] == kids[k - 1];
  }

  lemma {:induction false} RowsParent(items: seq<DirectoryItem>, level: nat)
    ensures ParentLinks(Rows(items, level), level)
    decreases items
  {
    if items != [] {
      assert items[0] in items;
      var head := [RowOf(items[0], level)];
      var kids := Rows(items[0].children, level + 1);
      var rest := Rows(items[1..], level);
      assert Rows(items, level) == (head + kids) + rest;
      RowsParent(items[0].children, level + 1);
      RowsParent(items[1..], level);
      KidsLinked(items[0], level, kids);
      ParentLinksJoin(head + kids, rest, level);
    }
  }

  /** An item's row and its children's rows have all their parent rows. */
  lemma KidsLinked(item: DirectoryItem, level: nat, kids: seq<Row>)
    requires kids == Rows(item.children, level + 1)
    requires ParentLinks(kids, level + 1)
    ensures ParentLinks([RowOf(item, level)] + kids, level)
  {
    var head := [RowOf(item, level)];
    var rs := head + kids;
    RowLevels(item.children, level + 1);
    RowsTopLevel(item.children, level + 1);
    forall i | 0 <= i < |rs| && rs[i].level > level
      ensures exists j :: 0 <= j < i && LinkAt(rs, i, j)
    {
      if i > 0 {
        var t := i - 1;
        assert rs[i] == kids[t];
        if kids[t].level == level + 1 {
          HeadLink(item, level, kids, t);
        } else {
          var j :| LinkAt(kids, t, j);
          LinkSuffix(head, kids, t, j);
        }
      }
    }
  }

  /** The rows of an item and its children, then the rows of the items after it. */
  lemma ParentLinksJoin(a: seq<Row>, b: seq<Row>, level: nat)
    requires ParentLinks(a, level) && ParentLinks(b, level)
    ensures ParentLinks(a + b, level)
  {
    var rs := a + b;
    forall i | 0 <= i < |rs| && rs[i].level > level
      ensures exists j :: 0 <= j < i && LinkAt(rs, i, j)
    {
      if i < |a| {
        LinkedInPrefix(a, b, level, i);
      } else {
        LinkedInSuffix(a, b, level, i);
      }
    }
  }

  lemma LinkedInPrefix(a: seq<Row>, b: seq<Row>, level: nat, i: nat)
    requires ParentLinks(a, level) && i < |a| && (a + b)[i].level > level
    ensures exists j :: 0 <= j < i && LinkAt(a + b, i, j)
  {
    assert (a + b)[i] == a[i];
    var j :| 0 <= j < i && LinkAt(a, i, j);
    LinkPrefix(a, b, i, j);
  }

  lemma LinkedInSuffix(a: seq<Row>, b: seq<Row>, level: nat, k: nat)
    requires ParentLinks(b, level) && |a| <= k < |a| + |b| && (a + b)[k].level > level
    ensures exists j :: 0 <= j < k && LinkAt(a + b, k, j)
  {
    var i := k - |a|;
    assert (a + b)[k] == b[i];
    var j :| 0 <= j < i && LinkAt(b, i, j);
    LinkSuffix(a, b, i, j);
  }

  /** The rows of two forests side by side are the rows of one, then the
      rows of the other. */
  lemma {:induction false} RowsAppend(a: seq<DirectoryItem>, b: seq<DirectoryItem>, level: nat)
    ensures Rows(a + b, level) == Rows(a, level) + Rows(b, level)
    decreases a
  {
    if a == [] {
      assert a + b == b;
    } else {
      assert (a + b)[0] == a[0];
      assert (a + b)[1..] == a[1..] + b;
      RowsAppend(a[1..], b, level);
    }
  }

  lemma {:induction false} LeavesShape(items: seq<DirectoryItem>)
    requires forall i :: 0 <= i < |items| ==> items[i].children == []
    ensures NodeCount(items) == |items|
    ensures Depth(items) == if items == [] then 0 else 1
  {
    if items != [] {
      LeavesShape(items[1..]);
    }
  }

  lemma StructureShape()
    ensures NodeCount(DirectoryStructure) == 11 && Depth(DirectoryStructure) == 4
  {
    ComponentsShape();
    var top := DirectoryStructure[0].children;
    assert top == [ComponentsFolder] + top[1..];
    LeavesShape(top[1..]);
    assert NodeCount([ComponentsFolder]) == 7 && Depth([ComponentsFolder]) == 3;
    ShapeAppend([ComponentsFolder], top[1..]);
  }

  lemma StudentShape()
    ensures NodeCount([StudentFolder]) == 2 && Depth([StudentFolder]) == 2
  {
    LeavesShape(StudentFolder.children);
  }

  lemma ComponentsShape()
    ensures NodeCount(ComponentsFolder.children) == 6 && Depth(ComponentsFolder.children) == 2
  {
    StudentShape();
    var cs := ComponentsFolder.children;
    assert cs == cs[..3] + [StudentFolder] + cs[4..];
    LeavesShape(cs[..3]);
    LeavesShape(cs[4..]);
    ShapeAppend(cs[..3], [StudentFolder]);
    ShapeAppend(cs[..3] + [StudentFolder], cs[4..]);
  }

  lemma {:induction false} ShapeAppend(a: seq<DirectoryItem>, b: seq<DirectoryItem>)
    ensures NodeCount(a + b) == NodeCount(a) + NodeCount(b)
    ensures Depth(a + b) == if Depth(a) >= Depth(b) then Depth(a) else Depth(b)
    decreases a
  {
    if a == [] {
      assert a + b == b;
    } else {
      assert (a + b)[0] == a[0];
      assert (a + b)[1..] == a[1..] + b;
      ShapeAppend(a[1..], b);
    }
  }

  /** `directoryStructure` renders eleven rows, the deepest three levels below the root. */
  lemma StructureRows()
    ensures |Rows(DirectoryStructure, 0)| == 11
    ensures forall i :: 0 <= i < |Rows(DirectoryStructure, 0)| ==> Rows(DirectoryStructure, 0)[i].level <= 3
    ensures exists i :: 0 <= i < |Rows(DirectoryStructure, 0)| && Rows(DirectoryStructure, 0)[i].level == 3
  {
    RowCount(DirectoryStructure, 0);
    RowLevels(DirectoryStructure, 0);
    StructureShape();
  }
}
